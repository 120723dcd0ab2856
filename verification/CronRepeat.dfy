/** When a repeated history document is a no-op for the whole cache. */
module CronRepeat {
  import opened Basics
  import opened SchedulerWire
  import opened CronModel
  import opened CronMerge
  import opened CronEviction
  import opened CronFleet

  /** What enforcing the ceiling leaves of one job: the newest part of its list. */
  lemma EnforcedAt(systems: Systems, cap: nat, k: JobKey)
    ensures var shelf, before := ShelfOf(systems), SystemOr(systems, k.system).jobs;
            var left, after := Enforced(shelf, cap), SystemOr(EnforcedSystems(systems, cap), k.system).jobs;
            && (k.job in before <==> k in shelf) && (k in left <==> k in shelf) && (k.job in after <==> k in shelf)
            && (k in shelf ==> shelf[k] == before[k.job] && left[k] == after[k.job] && IsSuffix(left[k], shelf[k]))
  {
    hide Count, Enforced;
    EnforcedRemovesExcess(ShelfOf(systems), cap);
    assert k.job in SystemOr(systems, k.system).jobs <==> k in ShelfKeys(systems);
  }

  /** Enforcing the ceiling leaves record `i` of job `k`: the whole excess is ahead of it. */
  ghost predicate Spared(shelf: Shelf, cap: nat, k: JobKey, i: int) {
    k in shelf && 0 <= i < |shelf[k]| && |Ahead(shelf, k, i)| >= Excess(Count(shelf), cap)
  }

  /** The excess is ahead of the first record of the ring of job `e`. */
  ghost predicate RingSpared(c: CacheView, id: string, h: History, e: nat)
    requires Carries(h, e)
  {
    var shelf, k := ShelfOf(Merged(c, id, h)), JobKey(id, h.jobs[e].name);
    var held := JobRecords(SystemOr(c.systems, id).jobs, h.jobs[e].name);
    k in shelf && Spared(shelf, c.totalCap, k, |shelf[k]| - Span(held, h.epoch, h.jobs[e].records))
  }

  lemma NewestOfNewest<T>(s: seq<T>, n: nat, tail: seq<T>)
    requires IsSuffix(tail, Newest(s, n))
    ensures tail == Newest(s, |tail|) && |tail| <= n
  {
    var kept := Newest(s, n);
    assert kept[|kept| - |tail|..] == s[|s| - |tail|..];
  }

  lemma SpanIsShort(held: seq<CronRecord>, epoch: Epoch, ring: seq<RunRecord>, n: nat)
    ensures Span(held, epoch, ring) <= n ==> Span(held, epoch, ring) <= |Newest(Merge(held, epoch, ring), n)|
    ensures ring != [] ==> Span(held, epoch, ring) >= 1
  {
    MergeLength(held, epoch, ring);
    if ring != [] && FirstHeld(held, epoch, ring) == |held| {
      var id := CronRecord(epoch, ring[0]).Identity();
      assert InRing(epoch, ring, id);
      assert id in Novel(held, epoch, ring);
      SubsetSize({id}, Novel(held, epoch, ring));
    }
  }

  lemma SparedIff(shelf: Shelf, cap: nat, k: JobKey, span: nat)
    requires k in shelf && 1 <= span <= |shelf[k]|
    ensures Spared(shelf, cap, k, |shelf[k]| - span) <==> k in Enforced(shelf, cap) && span <= |Enforced(shelf, cap)[k]|
  {
    hide Count, Ahead, Enforced;
    EvictedIffRank(shelf, cap, k, |shelf[k]| - span);
    EnforcedRemovesExcess(shelf, cap);
    assert k in Enforced(shelf, cap);
  }

  lemma RingKeptInCacheIff(c: CacheView, id: string, h: History, e: nat)
    requires Healthy(c) && NamesDistinct(h.jobs) && Carries(h, e)
    ensures RingRetained(JobRecords(SystemOr(Step(c, ApplyHistory(id, h)).systems, id).jobs, h.jobs[e].name), h.epoch, h.jobs[e].records)
       <==> KeepsRing(SystemOr(c.systems, id), h, c.perJob, e) && RingSpared(c, id, h, e)
  {
    hide HistoryApplied, EnforcedSystems, ShelfOf, Enforced, Merge, Span, Newest, Remains, Spared, RingRetained, Count;
    var s, name, ring := SystemOr(c.systems, id), h.jobs[e].name, h.jobs[e].records;
    var held := JobRecords(s.jobs, name);
    assert Distinct(held);
    EnforcedAt(Merged(c, id, h), c.totalCap, JobKey(id, name));
    HistoryAppliedAt(s, h, c.perJob, e);
    if Remains(NamesAfter(s, h), s.summary, name) {
      var list := SystemOr(Step(c, ApplyHistory(id, h)).systems, id).jobs[name];
      NewestOfNewest(Merge(held, h.epoch, ring), c.perJob, list);
      RetainedIffSpan(held, h.epoch, ring, |list|);
      SpanIsShort(held, h.epoch, ring, c.perJob);
      if Span(held, h.epoch, ring) <= c.perJob {
        SparedIff(ShelfOf(Merged(c, id, h)), c.totalCap, JobKey(id, name), Span(held, h.epoch, ring));
      }
    } else {
      NothingRetained(h.epoch, ring);
    }
  }

  /** A document whose records are all still retained changes nothing in the cache. */
  lemma RetainedRepeatSettles(c: CacheView, id: string, h: History)
    requires Healthy(c)
    requires AllRetained(SystemOr(Step(c, ApplyHistory(id, h)).systems, id).jobs, h.epoch, h.jobs)
    ensures Step(Step(c, ApplyHistory(id, h)), ApplyHistory(id, h)) == Step(c, ApplyHistory(id, h))
  {
    hide HistoryApplied, Count, AllRetained, Enforced, EnforcedSystems, ShelfOf, Bounded, HoldsDocument;
    var once := Step(c, ApplyHistory(id, h));
    StepHealthy(c, ApplyHistory(id, h));
    HoldsAppliedDocument(c, id, h);
    RetainedDocumentSettles(SystemOr(c.systems, id), once.systems[id], h, c.perJob);
    assert Merged(once, id, h) == once.systems;
    NoEvictionWithRoom(once.systems, once.totalCap);
  }

  lemma NoEvictionWithRoom(systems: Systems, cap: nat)
    requires Count(ShelfOf(systems)) <= cap
    ensures EnforcedSystems(systems, cap) == systems
  {
    ReadThenPut(systems);
  }

  lemma HoldsAppliedDocument(c: CacheView, id: string, h: History)
    ensures id in Step(c, ApplyHistory(id, h)).systems
    ensures HoldsDocument(SystemOr(c.systems, id), Step(c, ApplyHistory(id, h)).systems[id], h, c.perJob)
  {
    hide Count, Enforced, EvictStale;
    HoldsOwnDocument(SystemOr(c.systems, id), h, c.perJob);
  }

  /**
   * When a repeated response is a no-op for the cache, exactly: it adds nothing if and only if, for every job the
   * document carries records for, the job stays listed and within the 64, the depth reaches back to the first
   * record of the ring, and the whole excess over the global ceiling is older than that record. Then the repeat
   * leaves the entire cache as it is.
   */
  lemma RepeatIsNoOpForCacheIff(c: CacheView, id: string, h: History)
    requires Healthy(c) && NamesDistinct(h.jobs)
    ensures var once := Step(c, ApplyHistory(id, h));
            && (AllRetained(SystemOr(once.systems, id).jobs, h.epoch, h.jobs) <==>
                  forall e: nat :: Carries(h, e) ==> KeepsRing(SystemOr(c.systems, id), h, c.perJob, e) && RingSpared(c, id, h, e))
            && (AllRetained(SystemOr(once.systems, id).jobs, h.epoch, h.jobs) ==> Step(once, ApplyHistory(id, h)) == once)
  {
    hide Step, Healthy, KeepsRing, RingSpared, RingRetained, AllRetained;
    var once := Step(c, ApplyHistory(id, h));
    forall e: nat | Carries(h, e)
      ensures RingRetained(JobRecords(SystemOr(once.systems, id).jobs, h.jobs[e].name), h.epoch, h.jobs[e].records)
         <==> KeepsRing(SystemOr(c.systems, id), h, c.perJob, e) && RingSpared(c, id, h, e)
    {
      RingKeptInCacheIff(c, id, h, e);
    }
    RetainedIfCarried(SystemOr(once.systems, id).jobs, h);
    if AllRetained(SystemOr(once.systems, id).jobs, h.epoch, h.jobs) { RetainedRepeatSettles(c, id, h); }
  }
}
