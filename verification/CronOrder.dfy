/** Which documents and which runs keep every job's records in the order they finished, as eviction relies on. */
module CronOrder {
  import opened Basics
  import opened SchedulerWire
  import opened CronModel
  import opened CronMerge
  import opened CronEviction
  import opened CronFleet
  import opened CronRepeat
  import Utf8

  predicate Ordered(records: seq<CronRecord>) {
    forall i, j :: 0 <= i < j < |records| ==> records[i].record.finished <= records[j].record.finished
  }

  predicate RingOrdered(ring: seq<RunRecord>) {
    forall i, j :: 0 <= i < j < |ring| ==> ring[i].finished <= ring[j].finished
  }

  // ---- one ring ----

  predicate IsNovel(held: seq<CronRecord>, epoch: Epoch, run: RunRecord) {
    !Contains(held, CronRecord(epoch, run).Identity())
  }

  /** The records a ring adds to a list, in the ring's order. */
  function Additions(held: seq<CronRecord>, epoch: Epoch, ring: seq<RunRecord>): (added: seq<RunRecord>) {
    if ring == [] then []
    else
      var front, last := ring[..|ring| - 1], ring[|ring| - 1];
      Additions(held, epoch, front) + if IsNovel(Merge(held, epoch, front), epoch, last) then [last] else []
  }

  lemma {:induction false} MergeAdds(held: seq<CronRecord>, epoch: Epoch, ring: seq<RunRecord>)
    ensures Merge(held, epoch, ring) == held + Tag(epoch, Additions(held, epoch, ring))
  {
    if ring != [] {
      var front, last := ring[..|ring| - 1], ring[|ring| - 1];
      MergeAdds(held, epoch, front);
      TagConcat(epoch, Additions(held, epoch, front), [last]);
      assert Tag(epoch, [last]) == [CronRecord(epoch, last)];
    }
  }

  lemma {:induction false} AdditionsFromRing(held: seq<CronRecord>, epoch: Epoch, ring: seq<RunRecord>)
    ensures forall run :: run in Additions(held, epoch, ring) ==> run in ring && IsNovel(held, epoch, run)
  {
    if ring != [] {
      var front := ring[..|ring| - 1];
      AdditionsFromRing(held, epoch, front);
      MergeKeeps(held, epoch, front);
    }
  }

  lemma OrderedFront(ring: seq<RunRecord>)
    requires RingOrdered(ring) && ring != []
    ensures RingOrdered(ring[..|ring| - 1])
    ensures forall run :: run in ring[..|ring| - 1] ==> run.finished <= ring[|ring| - 1].finished
  {
  }

  /** Additions keep the ring's order. */
  lemma {:induction false} AdditionsOrdered(held: seq<CronRecord>, epoch: Epoch, ring: seq<RunRecord>)
    requires RingOrdered(ring)
    ensures RingOrdered(Additions(held, epoch, ring))
  {
    if ring != [] {
      hide Merge, IsNovel;
      var front, last := ring[..|ring| - 1], ring[|ring| - 1];
      OrderedFront(ring);
      AdditionsOrdered(held, epoch, front);
      AdditionsFromRing(held, epoch, front);
      forall run | run in Additions(held, epoch, front) ensures run.finished <= last.finished {
        assert run in front;
      }
    }
  }

  /** No novel record of the ring finished before the first one added. */
  lemma {:induction false} FirstAddition(held: seq<CronRecord>, epoch: Epoch, ring: seq<RunRecord>, i: nat)
    requires RingOrdered(ring) && i < |ring| && IsNovel(held, epoch, ring[i])
    ensures Additions(held, epoch, ring) != [] && Additions(held, epoch, ring)[0].finished <= ring[i].finished
  {
    hide Merge, IsNovel, RingOrdered;
    var front, last := ring[..|ring| - 1], ring[|ring| - 1];
    var before := Additions(held, epoch, front);
    OrderedFront(ring);
    if i < |front| {
      FirstAddition(held, epoch, front, i);
    } else {
      AdditionsFromRing(held, epoch, front);
      MergeAdds(held, epoch, front);
      assert before == [] ==> Merge(held, epoch, front) == held;
      if before != [] { assert before[0] in front; }
    }
  }

  lemma NewestOfTwo<T>(a: seq<T>, b: seq<T>, n: nat)
    ensures Newest(a + b, n) == if |b| >= n then Newest(b, n) else Newest(a, n - |b|) + b
  {
  }

  lemma OrderedTail(records: seq<CronRecord>, n: nat)
    requires Ordered(records)
    ensures Ordered(Newest(records, n))
  {
  }

  lemma OrderedConcatIff(a: seq<CronRecord>, b: seq<CronRecord>)
    requires Ordered(a) && Ordered(b)
    ensures Ordered(a + b) <==> a == [] || b == [] || a[|a| - 1].record.finished <= b[0].record.finished
  {
    var both := a + b;
    if a != [] && b != [] {
      assert both[|a| - 1] == a[|a| - 1] && both[|a|] == b[0];
      if a[|a| - 1].record.finished <= b[0].record.finished {
        forall i, j | 0 <= i < |a| && 0 <= j < |b| ensures a[i].record.finished <= b[j].record.finished {
          assert a[i].record.finished <= a[|a| - 1].record.finished;
          assert b[0].record.finished <= b[j].record.finished;
        }
      }
    }
  }

  /** What the ring adds finished no earlier than the newest record held, or displaces everything held. */
  predicate InStep(held: seq<CronRecord>, epoch: Epoch, ring: seq<RunRecord>, perJob: nat) {
    || held == [] || |Novel(held, epoch, ring)| >= perJob
    || forall i :: 0 <= i < |ring| && IsNovel(held, epoch, ring[i]) ==> held[|held| - 1].record.finished <= ring[i].finished
  }

  /** Merging an ordered ring into an ordered list gives an ordered one exactly when the two are in step. */
  lemma MergedOrderedIff(held: seq<CronRecord>, epoch: Epoch, ring: seq<RunRecord>, perJob: nat)
    requires Ordered(held) && RingOrdered(ring)
    ensures Ordered(Newest(Merge(held, epoch, ring), perJob)) <==> InStep(held, epoch, ring, perJob)
  {
    hide Newest, Merge, Novel, Additions;
    var added := Additions(held, epoch, ring);
    var tail := Tag(epoch, added);
    MergeAdds(held, epoch, ring);
    MergeLength(held, epoch, ring);
    AdditionsOrdered(held, epoch, ring);
    AdditionsFromRing(held, epoch, ring);
    NewestOfTwo(held, tail, perJob);
    if |tail| >= perJob {
      OrderedTail(tail, perJob);
    } else {
      var rest := Newest(held, perJob - |tail|);
      OrderedTail(held, perJob - |tail|);
      OrderedConcatIff(rest, tail);
      if held != [] {
        assert rest[|rest| - 1] == held[|held| - 1];
        if added != [] { assert added[0] in added; }
        forall i | 0 <= i < |ring| && IsNovel(held, epoch, ring[i]) ensures added != [] && added[0].finished <= ring[i].finished {
          FirstAddition(held, epoch, ring, i);
        }
      }
    }
  }

  // ---- one document ----

  ghost predicate AllOrdered(jobs: JobMap) {
    forall name :: name in jobs ==> Ordered(jobs[name])
  }

  /** Every ring the document carries is in finish order, and in step with what the system holds where it remains. */
  ghost predicate Orderly(s: SystemView, h: History, perJob: nat) {
    forall e :: 0 <= e < |h.jobs| && AcceptedName(h.jobs[e].name) && Remains(NamesAfter(s, h), s.summary, h.jobs[e].name) ==>
      InStep(JobRecords(s.jobs, h.jobs[e].name), h.epoch, h.jobs[e].records, perJob)
  }

  ghost predicate RingsOrdered(h: History) {
    NamesDistinct(h.jobs) && forall e :: 0 <= e < |h.jobs| ==> RingOrdered(h.jobs[e].records)
  }

  lemma AppliedOrderedIff(s: SystemView, h: History, perJob: nat)
    requires AllOrdered(s.jobs) && RingsOrdered(h)
    ensures AllOrdered(HistoryApplied(s, h, perJob).jobs) <==> Orderly(s, h, perJob)
  {
    hide HistoryApplied, Ordered, RingOrdered, InStep, Remains, Merge, Newest, Utf8.Len;
    var after := HistoryApplied(s, h, perJob).jobs;
    assert Ordered([]) by { EmptyOrdered(); }
    forall e | 0 <= e < |h.jobs| && AcceptedName(h.jobs[e].name)
      ensures h.jobs[e].name in after <==> Remains(NamesAfter(s, h), s.summary, h.jobs[e].name)
      ensures h.jobs[e].name in after ==>
        (Ordered(after[h.jobs[e].name]) <==> InStep(JobRecords(s.jobs, h.jobs[e].name), h.epoch, h.jobs[e].records, perJob))
    {
      HistoryAppliedAt(s, h, perJob, e);
      MergedOrderedIff(JobRecords(s.jobs, h.jobs[e].name), h.epoch, h.jobs[e].records, perJob);
    }
    forall name | name in after && name !in AcceptedNames(h.jobs) ensures Ordered(after[name]) {
      HistoryAppliedOther(s, h, perJob, name);
    }
  }

  lemma EmptyOrdered()
    ensures Ordered([])
  {
  }

  // ---- the whole cache ----

  lemma ShelfOrderedIff(systems: Systems)
    ensures InFinishOrder(ShelfOf(systems)) <==> forall id :: id in systems ==> AllOrdered(systems[id].jobs)
  {
    var shelf := ShelfOf(systems);
    if InFinishOrder(shelf) {
      forall id, name | id in systems && name in systems[id].jobs ensures Ordered(systems[id].jobs[name]) {
        assert JobKey(id, name) in ShelfKeys(systems);
        assert shelf[JobKey(id, name)] == systems[id].jobs[name];
      }
    }
  }

  /** From an ordered cache, exactly the orderly documents leave the merged jobs in finish order. */
  lemma MergedInOrderIff(c: CacheView, id: string, h: History)
    requires InFinishOrder(ShelfOf(c.systems)) && RingsOrdered(h)
    ensures InFinishOrder(ShelfOf(Merged(c, id, h))) <==> Orderly(SystemOr(c.systems, id), h, c.perJob)
  {
    hide HistoryApplied, Orderly, RingsOrdered, Ordered, ShelfOf, InFinishOrder;
    var merged := Merged(c, id, h);
    ShelfOrderedIff(c.systems);
    ShelfOrderedIff(merged);
    assert forall other :: other in merged && other != id ==> merged[other] == c.systems[other];
    assert id in merged && merged[id] == HistoryApplied(SystemOr(c.systems, id), h, c.perJob);
    AppliedOrderedIff(SystemOr(c.systems, id), h, c.perJob);
  }

  ghost predicate OpOrderly(c: CacheView, op: Op) {
    op.ApplyHistory? ==> RingsOrdered(op.history) && Orderly(SystemOr(c.systems, op.id), op.history, c.perJob)
  }

  lemma CutKeepsOrder(after: Shelf, shelf: Shelf)
    requires CutOf(after, shelf) && InFinishOrder(shelf)
    ensures InFinishOrder(after)
  {
    forall k, i, j | k in after && 0 <= i < j < |after[k]| ensures after[k][i].record.finished <= after[k][j].record.finished {
      assert IsSuffix(after[k], shelf[k]);
      var skip := |shelf[k]| - |after[k]|;
      assert after[k][i] == shelf[k][skip + i] && after[k][j] == shelf[k][skip + j];
    }
  }

  lemma StepKeepsOrder(c: CacheView, op: Op)
    requires InFinishOrder(ShelfOf(c.systems)) && OpOrderly(c, op)
    ensures InFinishOrder(ShelfOf(Step(c, op).systems))
  {
    if op.ApplyHistory? {
      hide Orderly, RingsOrdered, InFinishOrder, CutOf, HistoryApplied, ShelfOf, Count;
      MergedInOrderIff(c, op.id, op.history);
      AppliedDocumentEvictsOldestFirst(c, op.id, op.history);
      CutKeepsOrder(ShelfOf(Step(c, op).systems), ShelfOf(Merged(c, op.id, op.history)));
    } else {
      hide InFinishOrder, ShelfOf, Ordered, Count;
      ShelfOrderedIff(c.systems);
      ShelfOrderedIff(Step(c, op).systems);
    }
  }

  /** Every document of the run is orderly for the cache it meets. */
  ghost predicate OrderlyRun(c: CacheView, ops: seq<Op>) {
    ops == [] || (OrderlyRun(c, ops[..|ops| - 1]) && OpOrderly(Run(c, ops[..|ops| - 1]), ops[|ops| - 1]))
  }

  lemma {:induction false} OrderlyRunsStayInOrder(perJob: nat, totalCap: nat, ops: seq<Op>)
    requires OrderlyRun(New(perJob, totalCap), ops)
    ensures InFinishOrder(ShelfOf(Run(New(perJob, totalCap), ops).systems))
  {
    if ops != [] {
      OrderlyRunsStayInOrder(perJob, totalCap, ops[..|ops| - 1]);
      StepKeepsOrder(Run(New(perJob, totalCap), ops[..|ops| - 1]), ops[|ops| - 1]);
    }
  }

  /** So throughout an orderly run, whatever a document makes the cache evict is older than everything it keeps. */
  lemma OrderlyRunEvictsOldestFirst(perJob: nat, totalCap: nat, ops: seq<Op>, id: string, h: History)
    requires OrderlyRun(New(perJob, totalCap), ops) && OpOrderly(Run(New(perJob, totalCap), ops), ApplyHistory(id, h))
    ensures var c := Run(New(perJob, totalCap), ops);
            OldestFirst(ShelfOf(Merged(c, id, h)), ShelfOf(Step(c, ApplyHistory(id, h)).systems))
  {
    hide Orderly, RingsOrdered, InFinishOrder, OldestFirst, Step, Merged, ShelfOf, New, OrderlyRun, Run;
    OrderlyRunsStayInOrder(perJob, totalCap, ops);
    var c := Run(New(perJob, totalCap), ops);
    MergedInOrderIff(c, id, h);
    AppliedDocumentEvictsOldestFirst(c, id, h);
  }
}
