/** Identity-keyed baselines of cumulative counters, and the rates computed from them. */
module CounterRates {
  import opened Basics

  const NANOS := 1_000_000_000
  const U128_MAX := 0xFFFF_FFFF_FFFF_FFFF_FFFF_FFFF_FFFF_FFFF

  /** `observedAt` is a monotonic instant in nanoseconds. */
  datatype Sample = Sample(observedAt: nat, first: u64, second: u64)

  datatype Rates = Rates(first: u64, second: u64)

  type Samples = map<string, Sample>

  // ---- rates ----

  /** 128-bit `checked_mul`. */
  function CheckedMul(a: nat, b: nat): Option<nat> {
    if a * b <= U128_MAX then Some(a * b) else None
  }

  function RatePerSecond(delta: u64, elapsed: nat): Option<u64> {
    var scaled := CheckedMul(delta, NANOS);
    if scaled.None? || elapsed == 0 then None
    else if scaled.value / elapsed <= U64_MAX then Some(scaled.value / elapsed) else None
  }

  /** The scaling multiply never overflows, so a rate is missing only for an empty interval or when it exceeds 64 bits. */
  lemma RateIsExact(delta: u64, elapsed: nat)
    ensures CheckedMul(delta, NANOS) == Some(delta * NANOS)
    ensures RatePerSecond(delta, elapsed).Some? <==> elapsed > 0 && delta * NANOS < (U64_MAX + 1) * elapsed
    ensures RatePerSecond(delta, elapsed).Some? ==>
              var moved := RatePerSecond(delta, elapsed).value * elapsed;
              moved <= delta * NANOS < moved + elapsed
  {
    Scales(delta, U64_MAX, NANOS);
    if elapsed > 0 {
      Divides(delta * NANOS, elapsed);
      QuotientFits(delta * NANOS, elapsed, U64_MAX);
    }
  }

  lemma Scales(a: nat, b: nat, d: nat)
    requires a <= b
    ensures a * d <= b * d
  {
  }

  lemma Divides(n: nat, d: nat)
    requires d > 0
    ensures n / d * d <= n < n / d * d + d
  {
    assert n == n / d * d + n % d;
  }

  lemma QuotientFits(n: nat, d: nat, m: nat)
    requires d > 0
    ensures n / d <= m <==> n < (m + 1) * d
  {
    Divides(n, d);
    var q := n / d;
    if q <= m {
      Scales(q + 1, m + 1, d);
      assert (q + 1) * d == q * d + d;
    } else {
      Scales(m + 1, q, d);
    }
  }

  /** The rates of one interval, when it is continuous, monotonic and not empty. */
  function RatesBetween(before: Sample, now: Sample): Option<Rates> {
    if now.observedAt <= before.observedAt || now.first < before.first || now.second < before.second then None
    else
      var a := RatePerSecond(now.first - before.first, now.observedAt - before.observedAt);
      var b := RatePerSecond(now.second - before.second, now.observedAt - before.observedAt);
      if a.None? || b.None? then None else Some(Rates(a.value, b.value))
  }

  /** Time advanced, neither counter went back, and neither rate exceeds 64 bits. */
  ghost predicate Measurable(before: Sample, now: Sample) {
    && before.observedAt < now.observedAt && before.first <= now.first && before.second <= now.second
    && (now.first - before.first) * 1_000_000_000 < 0x1_0000_0000_0000_0000 * (now.observedAt - before.observedAt)
    && (now.second - before.second) * 1_000_000_000 < 0x1_0000_0000_0000_0000 * (now.observedAt - before.observedAt)
  }

  /** `rate` is the advance per second, rounded down. */
  ghost predicate IsRate(rate: nat, advance: int, elapsed: int) {
    rate * elapsed <= advance * 1_000_000_000 < rate * elapsed + elapsed
  }

  /** Rates exist exactly for measurable intervals, and each is its own counter's. */
  lemma RatesBetweenIff(before: Sample, now: Sample)
    ensures RatesBetween(before, now).Some? <==> Measurable(before, now)
    ensures RatesBetween(before, now).Some? ==>
              var r, elapsed := RatesBetween(before, now).value, now.observedAt - before.observedAt;
              IsRate(r.first, now.first - before.first, elapsed) && IsRate(r.second, now.second - before.second, elapsed)
  {
    hide RatePerSecond;
    if before.observedAt < now.observedAt && before.first <= now.first && before.second <= now.second {
      RateIsExact(now.first - before.first, now.observedAt - before.observedAt);
      RateIsExact(now.second - before.second, now.observedAt - before.observedAt);
    }
  }

  function Observed(samples: Samples, id: string, now: Sample): (r: (Samples, Option<Rates>)) {
    (samples[id := now], if id in samples then RatesBetween(samples[id], now) else None)
  }

  function Filtered(samples: Samples, ids: seq<string>): Samples {
    map id | id in samples && id in ids :: samples[id]
  }

  /** The fast path returns without filtering. */
  predicate FastPath(samples: Samples, ids: seq<string>) {
    |ids| == |samples| && forall i :: 0 <= i < |ids| ==> ids[i] in samples
  }

  function RetainedIds(samples: Samples, ids: seq<string>): Samples {
    if FastPath(samples, ids) then samples else Filtered(samples, ids)
  }

  class CounterBaselines {
    var samples: Samples

    constructor ()
      ensures samples == map[]
    {
      samples := map[];
    }

    method Observe(id: string, observedAt: nat, first: u64, second: u64) returns (rates: Option<Rates>)
      modifies this
      ensures (samples, rates) == Observed(old(samples), id, Sample(observedAt, first, second))
      ensures rates.Some? <==> id in old(samples) && Measurable(old(samples)[id], Sample(observedAt, first, second))
      ensures rates.Some? ==>
                var before, elapsed := old(samples)[id], observedAt - old(samples)[id].observedAt;
                IsRate(rates.value.first, first - before.first, elapsed) && IsRate(rates.value.second, second - before.second, elapsed)
    {
      if id in samples { RatesBetweenIff(samples[id], Sample(observedAt, first, second)); }
      hide Measurable, IsRate, RatePerSecond;
      var current := Sample(observedAt, first, second);
      if id !in samples {
        samples := samples[id := current];
        return None;
      }
      var previous := samples[id];
      samples := samples[id := current];
      if observedAt < previous.observedAt {
        return None;
      }
      var elapsed := observedAt - previous.observedAt;
      if elapsed == 0 || first < previous.first || second < previous.second {
        return None;
      }
      var a := RatePerSecond(first - previous.first, elapsed);
      if a.None? {
        return None;
      }
      var b := RatePerSecond(second - previous.second, elapsed);
      if b.None? {
        return None;
      }
      return Some(Rates(a.value, b.value));
    }

    method RetainIds(ids: seq<string>)
      modifies this
      ensures samples == RetainedIds(old(samples), ids)
    {
      if |ids| == |samples| && forall i :: 0 <= i < |ids| ==> ids[i] in samples {
        return;
      }
      var wanted := set id | id in ids;
      samples := map id | id in samples && id in wanted :: samples[id];
      assert samples == Filtered(old(samples), ids);
    }

    method Clear()
      modifies this
      ensures samples == map[]
    {
      samples := map[];
    }
  }

  // ---- the fast path ----

  predicate HasDuplicate(ids: seq<string>) {
    exists i, j :: 0 <= i < j < |ids| && ids[i] == ids[j]
  }

  function Names(ids: seq<string>): set<string> {
    set id | id in ids
  }

  lemma {:induction false} NamesSize(ids: seq<string>)
    ensures |Names(ids)| <= |ids|
    ensures |Names(ids)| == |ids| <==> !HasDuplicate(ids)
  {
    if ids != [] {
      var front, last := ids[..|ids| - 1], ids[|ids| - 1];
      NamesSize(front);
      assert ids == front + [last];
      assert Names(ids) == Names(front) + {last};
      if last in Names(front) {
        var i :| 0 <= i < |front| && front[i] == last;
        assert ids[i] == ids[|front|];
        assert Names(ids) == Names(front);
      } else {
        assert HasDuplicate(front) ==> HasDuplicate(ids) by {
          if HasDuplicate(front) {
            var i, j :| 0 <= i < j < |front| && front[i] == front[j];
            assert ids[i] == ids[j];
          }
        }
        assert !HasDuplicate(front) ==> !HasDuplicate(ids) by {
          if HasDuplicate(ids) {
            var i, j :| 0 <= i < j < |ids| && ids[i] == ids[j];
            assert ids[i] == front[i];
            assert j == |front| ==> last in Names(front);
            assert j < |front| ==> front[i] == front[j];
          }
        }
      }
    }
  }

  /**
   * When the fast path is right, exactly: retaining agrees with filtering unless the counts match, every id
   * is known, and some id is listed twice. Then an absent identity keeps its baseline.
   */
  lemma RetainFiltersIff(samples: Samples, ids: seq<string>)
    ensures RetainedIds(samples, ids) == Filtered(samples, ids) <==> !(FastPath(samples, ids) && HasDuplicate(ids))
  {
    if FastPath(samples, ids) {
      NamesSize(ids);
      assert Names(ids) <= samples.Keys;
      SubsetSize(Names(ids), samples.Keys);
      assert Filtered(samples, ids).Keys == Names(ids);
      if Names(ids) == samples.Keys {
        assert Filtered(samples, ids) == samples;
      }
    }
  }

  // ---- a run is a log ----

  datatype Event = Observe(id: string, now: Sample) | Retain(ids: seq<string>) | Clear

  function Step(samples: Samples, e: Event): Samples {
    match e
    case Observe(id, now) => Observed(samples, id, now).0
    case Retain(ids) => RetainedIds(samples, ids)
    case Clear => map[]
  }

  function Run(events: seq<Event>): Samples {
    if events == [] then map[] else Step(Run(events[..|events| - 1]), events[|events| - 1])
  }

  predicate Forgets(e: Event, id: string) {
    e.Clear? || (e.Retain? && id !in e.ids)
  }

  /** The last observation of `id` since it was last forgotten. */
  function Remembered(events: seq<Event>, id: string): Option<Sample> {
    if events == [] then None
    else
      var last := events[|events| - 1];
      if last.Observe? && last.id == id then Some(last.now)
      else if Forgets(last, id) then None
      else Remembered(events[..|events| - 1], id)
  }

  predicate NoDuplicateLists(events: seq<Event>) {
    forall i :: 0 <= i < |events| && events[i].Retain? ==> !HasDuplicate(events[i].ids)
  }

  /**
   * Over any mix of operations whose id lists are free of duplicates, the baselines are exactly the last
   * observations since each identity was last forgotten, and `observe` yields rates exactly for a measurable
   * interval since then.
   */
  lemma {:induction false} BaselinesAreTheLog(events: seq<Event>, id: string, now: Sample)
    requires NoDuplicateLists(events)
    ensures id in Run(events) <==> Remembered(events, id).Some?
    ensures id in Run(events) ==> Run(events)[id] == Remembered(events, id).value
    ensures Observed(Run(events), id, now).1 ==
              match Remembered(events, id) case None => None case Some(before) => RatesBetween(before, now)
    ensures Observed(Run(events), id, now).1.Some? <==> Remembered(events, id).Some? && Measurable(Remembered(events, id).value, now)
  {
    if Remembered(events, id).Some? { RatesBetweenIff(Remembered(events, id).value, now); }
    hide Measurable, RatesBetween;
    if events != [] {
      var front, last := events[..|events| - 1], events[|events| - 1];
      BaselinesAreTheLog(front, id, now);
      if last.Retain? {
        RetainFiltersIff(Run(front), last.ids);
      }
    }
  }

  /** Without that hypothesis a forgotten identity can survive: two copies of one id keep another. */
  lemma DuplicateIdsKeepAbsentOne(a: string, b: string, x: Sample, y: Sample)
    requires a != b
    ensures var events := [Observe(a, x), Observe(b, y), Retain([a, a])];
            b in Run(events) && Remembered(events, b) == None
  {
    var e1, e2, e3 := Observe(a, x), Observe(b, y), Retain([a, a]);
    var events := [e1, e2, e3];
    assert events[..2] == [e1, e2] && [e1, e2][..1] == [e1] && [e1][..0] == [];
    assert Run([e1]) == map[a := x];
    assert Run([e1, e2]) == map[a := x, b := y];
    assert |map[a := x, b := y]| == 2;
    assert FastPath(Run([e1, e2]), [a, a]);
  }

  // ---- conservation ----

  /** Consecutive observations of one identity, every interval of which is measurable. */
  ghost predicate Continuous(obs: seq<Sample>) {
    forall i :: 0 < i < |obs| ==> Measurable(obs[i - 1], obs[i])
  }

  datatype Counter = First | Second

  function Count(s: Sample, c: Counter): u64 { if c.First? then s.first else s.second }

  function Rate(r: Rates, c: Counter): u64 { if c.First? then r.first else r.second }

  function Product(rate: nat, elapsed: nat): nat { rate * elapsed }

  /** One interval's rate weighted by its length: 10^9 times a number of counter units. */
  function Weighted(before: Sample, now: Sample, c: Counter): nat {
    var r := RatesBetween(before, now);
    if r.None? || now.observedAt <= before.observedAt then 0
    else Product(Rate(r.value, c), now.observedAt - before.observedAt)
  }

  function Moved(obs: seq<Sample>, c: Counter): nat {
    if |obs| <= 1 then 0
    else Moved(obs[..|obs| - 1], c) + Weighted(obs[|obs| - 2], obs[|obs| - 1], c)
  }

  lemma IntervalConserves(before: Sample, now: Sample, c: Counter)
    requires RatesBetween(before, now).Some?
    ensures now.observedAt > before.observedAt
    ensures Weighted(before, now, c) <= (Count(now, c) - Count(before, c)) * NANOS
              < Weighted(before, now, c) + (now.observedAt - before.observedAt)
  {
    RateIsExact(Count(now, c) - Count(before, c), now.observedAt - before.observedAt);
  }

  /**
   * Rates conserve bytes: over any continuous stretch, for either counter, the rates weighted by their intervals
   * never exceed 10^9 times the total advance, and fall short by less than the total elapsed nanoseconds.
   */
  lemma {:induction false} RatesConserve(obs: seq<Sample>, c: Counter)
    requires |obs| >= 2 && Continuous(obs)
    ensures var start, end := obs[0], obs[|obs| - 1];
            Moved(obs, c) <= (Count(end, c) - Count(start, c)) * NANOS < Moved(obs, c) + (end.observedAt - start.observedAt)
  {
    hide RatesBetween, Weighted, Count, Measurable;
    var n := |obs|;
    assert Measurable(obs[n - 2], obs[n - 1]);
    RatesBetweenIff(obs[n - 2], obs[n - 1]);
    IntervalConserves(obs[n - 2], obs[n - 1], c);
    if n > 2 {
      RatesConserve(obs[..n - 1], c);
    } else {
      assert Moved(obs[..1], c) == 0;
    }
  }
}
