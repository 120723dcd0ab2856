/**
 * Short runs of the cache that end where one of its comments does not hold. Every document here is accepted by the
 * history validator, and every ring is served oldest first by a clock that only moves forward.
 */
module CronWitness {
  import opened Basics
  import opened SchedulerWire
  import opened CronModel
  import opened CronMerge
  import opened CronEviction
  import opened CronFleet
  import opened CronRepeat
  import opened CronOrder
  import SchedulerValidate
  import Utf8

  const Lifetime := Epoch(1, 1)

  /** Run number `i` of a job, finished at time `i`. */
  function RunAt(i: u64): RunRecord {
    RunRecord(i, i, None, i, Success, None, None, None, 0, false, Output("", false), Output("", false))
  }

  const First := CronRecord(Lifetime, RunAt(1))
  const Second := CronRecord(Lifetime, RunAt(2))
  const Third := CronRecord(Lifetime, RunAt(3))
  const Fourth := CronRecord(Lifetime, RunAt(4))

  /** What a remote serves after `n` runs of its only job. */
  function Served(n: nat): History
    requires n <= MAX_HISTORY_LIMIT
  {
    History(SCHEMA_VERSION, 1, Lifetime, n, [JobHistory("b", seq(n, i requires 0 <= i < n => RunAt(i + 1)))])
  }

  const Job := JobKey("a", "b")

  lemma NameAccepted()
    ensures AcceptedName("b")
  {
    assert "b"[..0] == "";
  }

  lemma ServedAccepted(n: nat)
    requires n <= MAX_HISTORY_LIMIT
    ensures SchedulerValidate.Violations(Served(n)) == [] && RingsOrdered(Served(n))
  {
    hide SchedulerValidate.WellFormedRecord, SchedulerValidate.Violations;
    NameAccepted();
    var h := Served(n);
    SchedulerValidate.AcceptedIffWellFormed(h);
    forall i | 0 <= i < n ensures SchedulerValidate.WellFormedRecord(h.jobs[0].records[i]) {
      RunAccepted(i + 1);
    }
    assert SchedulerValidate.WellFormedJob(h.jobs[0]);
  }

  lemma RunAccepted(i: u64)
    requires i <= MAX_HISTORY_LIMIT
    ensures SchedulerValidate.WellFormedRecord(RunAt(i))
  {
  }

  lemma RunOne(c: CacheView, op: Op)
    ensures Run(c, [op]) == Step(c, op)
  {
    assert [op][..0] == [];
  }

  lemma RunTwo(c: CacheView, a: Op, b: Op)
    ensures Run(c, [a, b]) == Step(Step(c, a), b)
  {
    assert [a, b][..1] == [a];
    RunOne(c, a);
  }

  // ---- a cache that holds one job ----

  ghost predicate HoldsOnly(c: CacheView, held: seq<CronRecord>) {
    && c.systems.Keys <= {"a"}
    && SystemOr(c.systems, "a").summary.None?
    && SystemOr(c.systems, "a").jobs.Keys <= {"b"}
    && JobRecords(SystemOr(c.systems, "a").jobs, "b") == held
  }

  lemma LoneJobEnforced(list: seq<CronRecord>, cap: nat)
    ensures Enforced(map[Job := list], cap) == map[Job := Newest(list, cap)]
  {
    var shelf: Shelf := map[Job := list];
    var after := Enforced(shelf, cap);
    EnforcedRemovesExcess(shelf, cap);
    CountTake(shelf, shelf.Keys, Job);
    CountTake(after, shelf.Keys, Job);
    assert shelf.Keys - {Job} == {};
    assert IsSuffix(after[Job], list);
  }

  lemma LoneApplied(s: SystemView, perJob: nat, n: nat)
    requires s.summary.None? && s.jobs.Keys <= {"b"} && n <= MAX_HISTORY_LIMIT
    ensures HistoryApplied(s, Served(n), perJob).jobs ==
              map["b" := Newest(Merge(JobRecords(s.jobs, "b"), Lifetime, Served(n).jobs[0].records), perJob)]
  {
    hide Merge, Newest, HistoryApplied, RunAt, Utf8.Len, NamesDistinct, Remains;
    NameAccepted();
    var h := Served(n);
    HistoryAppliedAt(s, h, perJob, 0);
    JobCeilingIff(s, h, perJob);
    assert AcceptedNames(h.jobs) == {h.jobs[0].name};
  }

  lemma LoneShelf(systems: Systems, list: seq<CronRecord>)
    requires systems.Keys == {"a"} && systems["a"].jobs == map["b" := list]
    ensures ShelfOf(systems) == map[Job := list]
  {
    assert ShelfKeys(systems) == {Job};
  }

  lemma LoneMerged(c: CacheView, held: seq<CronRecord>, n: nat)
    requires HoldsOnly(c, held) && n <= MAX_HISTORY_LIMIT
    ensures ShelfOf(Merged(c, "a", Served(n))) ==
              map[Job := Newest(Merge(held, Lifetime, Served(n).jobs[0].records), c.perJob)]
  {
    hide Merge, Newest, HistoryApplied, ShelfOf, RunAt;
    LoneApplied(SystemOr(c.systems, "a"), c.perJob, n);
    LoneShelf(Merged(c, "a", Served(n)), Newest(Merge(held, Lifetime, Served(n).jobs[0].records), c.perJob));
  }

  lemma LoneStep(c: CacheView, held: seq<CronRecord>, n: nat)
    requires HoldsOnly(c, held) && n <= MAX_HISTORY_LIMIT
    ensures var merged := Newest(Merge(held, Lifetime, Served(n).jobs[0].records), c.perJob);
            var after := Step(c, ApplyHistory("a", Served(n)));
            && ShelfOf(after.systems) == map[Job := Newest(merged, c.totalCap)]
            && HoldsOnly(after, Newest(merged, c.totalCap))
  {
    hide Merge, Newest, HistoryApplied, Count, Enforced;
    var merged := Newest(Merge(held, Lifetime, Served(n).jobs[0].records), c.perJob);
    var systems := Merged(c, "a", Served(n));
    LoneMerged(c, held, n);
    LoneJobEnforced(merged, c.totalCap);
    ShelfKeysOf(systems);
    PutThenRead(systems, Enforced(ShelfOf(systems), c.totalCap));
    EnforcedAt(systems, c.totalCap, Job);
    HoldsOwnDocument(SystemOr(c.systems, "a"), Served(n), c.perJob);
    forall name | name in systems["a"].jobs ensures name == "b" {
      assert JobKey("a", name) in ShelfKeys(systems);
    }
  }

  // ---- a repeated response that is not a no-op ----

  /** The summary lists no job: the document is added and swept away, and its repeat reports an addition again. */
  lemma UnlistedJobIsAddedAgain()
    ensures var c := Run(New(3, 100), [ApplySummary("a", Summary(SCHEMA_VERSION, 1, Lifetime, 1, []), 1)]);
            var once := Step(c, ApplyHistory("a", Served(1)));
            SchedulerValidate.Violations(Served(1)) == [] && !AllRetained(SystemOr(once.systems, "a").jobs, Lifetime, Served(1).jobs)
  {
    var op := ApplySummary("a", Summary(SCHEMA_VERSION, 1, Lifetime, 1, []), 1);
    var c := Run(New(3, 100), [op]);
    RunOne(New(3, 100), op);
    EveryRunHealthy(3, 100, [op]);
    ServedAccepted(1);
    NameAccepted();
    assert SystemOr(c.systems, "a").summary == Some(op.summary);
    hide Healthy, Step, Run, AllRetained, AcceptedName;
    RepeatIsNoOpForCacheIff(c, "a", Served(1));
    assert Carries(Served(1), 0);
    assert !KeepsRing(SystemOr(c.systems, "a"), Served(1), c.perJob, 0);
  }

  /** A ceiling of one record: the second record of the document evicts the first, and its repeat adds that one again. */
  lemma EvictedRecordIsAddedAgain()
    ensures var once := Run(New(3, 1), [ApplyHistory("a", Served(2))]);
            && SchedulerValidate.Violations(Served(2)) == []
            && JobRecords(SystemOr(once.systems, "a").jobs, "b") == [Second]
            && !AllRetained(SystemOr(once.systems, "a").jobs, Lifetime, Served(2).jobs)
  {
    hide Step, AllRetained, ShelfOf, Merge, Newest, Served, HoldsOnly, SchedulerValidate.Violations;
    ServedAccepted(2);
    RunOne(New(3, 1), ApplyHistory("a", Served(2)));
    assert HoldsOnly(New(3, 1), []) by { NewHoldsNothing(3, 1); }
    LoneStep(New(3, 1), [], 2);
    TwoCutToOne();
    OnlySecondHeld(Run(New(3, 1), [ApplyHistory("a", Served(2))]));
  }

  lemma NewHoldsNothing(perJob: nat, totalCap: nat)
    ensures HoldsOnly(New(perJob, totalCap), [])
  {
  }

  lemma TwoCutToOne()
    ensures Newest(Newest(Merge([], Lifetime, Served(2).jobs[0].records), 3), 1) == [Second]
  {
    var ring := Served(2).jobs[0].records;
    MergeIntoEmpty(Lifetime, ring);
    assert Tag(Lifetime, ring) == [First, Second];
  }

  lemma OnlySecondHeld(c: CacheView)
    requires HoldsOnly(c, [Second])
    ensures JobRecords(SystemOr(c.systems, "a").jobs, "b") == [Second]
    ensures !AllRetained(SystemOr(c.systems, "a").jobs, Lifetime, Served(2).jobs)
  {
    hide AllRetained;
    NameAccepted();
    assert !Contains([Second], CronRecord(Lifetime, Served(2).jobs[0].records[0]).Identity());
    NotRetained(SystemOr(c.systems, "a").jobs, Served(2), 0);
  }

  lemma NotRetained(jobs: JobMap, h: History, e: nat)
    requires e < |h.jobs| && AcceptedName(h.jobs[e].name)
    requires exists i :: 0 <= i < |h.jobs[e].records| &&
               !Contains(JobRecords(jobs, h.jobs[e].name), CronRecord(h.epoch, h.jobs[e].records[i]).Identity())
    ensures !AllRetained(jobs, h.epoch, h.jobs)
  {
    assert !RingRetained(JobRecords(jobs, h.jobs[e].name), h.epoch, h.jobs[e].records);
  }

  // ---- an eviction that is not oldest first ----

  lemma ReturningRecordMerges()
    ensures Merge([Second, Third], Lifetime, Served(4).jobs[0].records) == [Second, Third, First, Fourth]
  {
    var early, late, last := [RunAt(1)], [RunAt(2), RunAt(3)], [RunAt(4)];
    var held := [Second, Third];
    assert Served(4).jobs[0].records == (early + late) + last;
    assert Tag(Lifetime, late) == held && Tag(Lifetime, early) == [First] && Tag(Lifetime, last) == [Fourth];
    MergeRotated(Lifetime, early, late);
    assert held + [First] == [Second, Third, First];
    MergeFresh(held + [First], Lifetime, last);
    MergeConcat(held, Lifetime, early + late, last);
  }

  /**
   * A record the ceiling evicted comes back behind newer ones with the next document that still carries it. The
   * eviction that follows drops the newer ones and keeps it.
   */
  lemma ReturningRecordOutlivesNewer()
    ensures var c := Run(New(4, 2), [ApplyHistory("a", Served(3))]);
            var merged, after := ShelfOf(Merged(c, "a", Served(4))), ShelfOf(Step(c, ApplyHistory("a", Served(4))).systems);
            && SchedulerValidate.Violations(Served(3)) == [] && SchedulerValidate.Violations(Served(4)) == []
            && InFinishOrder(ShelfOf(c.systems))
            && merged == map[Job := [Second, Third, First, Fourth]]
            && after == map[Job := [First, Fourth]]
            && !OldestFirst(merged, after)
  {
    hide Step, Run, Merged, ShelfOf, Merge, Served, InFinishOrder, OldestFirst, SchedulerValidate.Violations;
    ServedAccepted(3);
    ServedAccepted(4);
    var c := Run(New(4, 2), [ApplyHistory("a", Served(3))]);
    HeldAfterThree();
    ReturningRecordMerges();
    LoneMerged(c, [Second, Third], 4);
    LoneStep(c, [Second, Third], 4);
    OutOfOrder();
  }

  /** The first of three records is over a ceiling of two. */
  lemma HeldAfterThree()
    ensures var c := Run(New(4, 2), [ApplyHistory("a", Served(3))]);
            && c.perJob == 4 && c.totalCap == 2 && HoldsOnly(c, [Second, Third])
            && InFinishOrder(ShelfOf(c.systems))
  {
    hide Step, ShelfOf, Merge, Newest, Served, InFinishOrder, HoldsOnly;
    RunOne(New(4, 2), ApplyHistory("a", Served(3)));
    assert HoldsOnly(New(4, 2), []) by { NewHoldsNothing(4, 2); }
    LoneStep(New(4, 2), [], 3);
    ConfiguredBounds(New(4, 2), ApplyHistory("a", Served(3)));
    ThreeCutToTwo();
  }

  lemma ThreeCutToTwo()
    ensures Newest(Newest(Merge([], Lifetime, Served(3).jobs[0].records), 4), 2) == [Second, Third]
    ensures InFinishOrder(map[Job := [Second, Third]])
  {
    var ring := Served(3).jobs[0].records;
    MergeIntoEmpty(Lifetime, ring);
    assert Tag(Lifetime, ring) == [First, Second, Third];
  }

  lemma OutOfOrder()
    ensures Newest([Second, Third, First, Fourth], 4) == [Second, Third, First, Fourth]
    ensures Newest([Second, Third, First, Fourth], 2) == [First, Fourth]
    ensures !OldestFirst(map[Job := [Second, Third, First, Fourth]], map[Job := [First, Fourth]])
  {
    var merged: Shelf, after: Shelf := map[Job := [Second, Third, First, Fourth]], map[Job := [First, Fourth]];
    assert Gone(merged, after, Job, 0) && Stays(merged, after, Job, 2);
  }

  lemma ConfiguredBounds(c: CacheView, op: Op)
    ensures Step(c, op).perJob == c.perJob && Step(c, op).totalCap == c.totalCap
  {
  }

  // ---- more than 64 jobs ----

  /** A document with the largest number of jobs, none of which has run yet. */
  function FullDocument(from: nat): History
    requires from <= 0x1000
  {
    History(SCHEMA_VERSION, 1, Lifetime, 1, seq(MAX_JOBS, i requires 0 <= i < MAX_JOBS => JobHistory([(from + i) as char], [])))
  }

  lemma FullDocumentAccepted(from: nat)
    requires from <= 0x1000
    ensures SchedulerValidate.Violations(FullDocument(from)) == []
  {
    SchedulerValidate.AcceptedIffWellFormed(FullDocument(from));
  }

  lemma {:induction false} NamesCounted(entries: seq<JobHistory>)
    requires NamesDistinct(entries) && forall e :: 0 <= e < |entries| ==> AcceptedName(entries[e].name)
    ensures |AcceptedNames(entries)| == |entries|
  {
    if entries == [] {
      assert AcceptedNames(entries) == {};
    } else {
      var front, last := entries[..|entries| - 1], entries[|entries| - 1];
      NamesCounted(front);
      assert entries == front + [last];
      NamesOneMore(front, last);
      assert last.name !in AcceptedNames(front);
    }
  }

  lemma NamesTogether()
    ensures |AcceptedNames(FullDocument(0x100).jobs) + AcceptedNames(FullDocument(0x200).jobs)| == 128
  {
    hide AcceptedName, AcceptedNames;
    var a, b := FullDocument(0x100).jobs, FullDocument(0x200).jobs;
    forall from, i | 0 <= from <= 0x1000 && 0 <= i < MAX_JOBS ensures AcceptedName(FullDocument(from).jobs[i].name) {
      OneCharacterName((from + i) as char);
    }
    NamesCounted(a + b);
    NamesConcat(a, b);
  }

  lemma OneCharacterName(c: char)
    ensures AcceptedName([c])
  {
  }

  lemma NamesConcat(a: seq<JobHistory>, b: seq<JobHistory>)
    ensures AcceptedNames(a + b) == AcceptedNames(a) + AcceptedNames(b)
  {
    var all := a + b;
    forall e | 0 <= e < |b| ensures all[|a| + e] == b[e] {
    }
    forall e | 0 <= e < |a| ensures all[e] == a[e] {
    }
  }

  /** Without a summary, every name two documents mention is held. */
  lemma TwoDocuments(perJob: nat, totalCap: nat, a: History, b: History)
    ensures var c := Run(New(perJob, totalCap), [ApplyHistory("a", a), ApplyHistory("a", b)]);
            "a" in c.systems && c.systems["a"].jobs.Keys == AcceptedNames(a.jobs) + AcceptedNames(b.jobs)
  {
    hide Step, HistoryApplied, AcceptedNames;
    var c0 := New(perJob, totalCap);
    var c1 := Step(c0, ApplyHistory("a", a));
    RunTwo(c0, ApplyHistory("a", a), ApplyHistory("a", b));
    HoldsAppliedDocument(c0, "a", a);
    HoldsAppliedDocument(c1, "a", b);
    JobCeilingIff(SystemOr(c0.systems, "a"), a, c0.perJob);
    JobCeilingIff(SystemOr(c1.systems, "a"), b, c1.perJob);
  }

  /** Two documents without a summary read in between: one system holds 128 jobs. */
  lemma TwoDocumentsPassTheCeiling(perJob: nat, totalCap: nat)
    ensures var a, b := FullDocument(0x100), FullDocument(0x200);
            var c := Run(New(perJob, totalCap), [ApplyHistory("a", a), ApplyHistory("a", b)]);
            && SchedulerValidate.Violations(a) == [] && SchedulerValidate.Violations(b) == []
            && "a" in c.systems && |c.systems["a"].jobs| == 128
  {
    hide Run, AcceptedNames, SchedulerValidate.Violations;
    FullDocumentAccepted(0x100);
    FullDocumentAccepted(0x200);
    NamesTogether();
    TwoDocuments(perJob, totalCap, FullDocument(0x100), FullDocument(0x200));
    var jobs := Run(New(perJob, totalCap), [ApplyHistory("a", FullDocument(0x100)), ApplyHistory("a", FullDocument(0x200))]).systems["a"].jobs;
    assert |jobs| == |jobs.Keys|;
  }
}
