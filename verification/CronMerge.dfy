/** What merging history documents into one system's jobs keeps, adds and drops. */
module CronMerge {
  import opened Basics
  import opened SchedulerWire
  import opened StringOrder
  import opened CronModel
  import SchedulerValidate
  import Utf8

  function Tag(epoch: Epoch, ring: seq<RunRecord>): (tagged: seq<CronRecord>)
    ensures |tagged| == |ring|
    ensures forall i :: 0 <= i < |ring| ==> tagged[i] == CronRecord(epoch, ring[i])
  {
    seq(|ring|, i requires 0 <= i < |ring| => CronRecord(epoch, ring[i]))
  }

  predicate InRing(epoch: Epoch, ring: seq<RunRecord>, id: RecordId) {
    exists i :: 0 <= i < |ring| && CronRecord(epoch, ring[i]).Identity() == id
  }

  // ---- one ring ----

  lemma ContainsConcat(a: seq<CronRecord>, b: seq<CronRecord>, id: RecordId)
    ensures Contains(a + b, id) <==> Contains(a, id) || Contains(b, id)
  {
    if Contains(a, id) {
      var i :| 0 <= i < |a| && a[i].Identity() == id;
      assert (a + b)[i] == a[i];
    }
    if Contains(b, id) {
      var i :| 0 <= i < |b| && b[i].Identity() == id;
      assert (a + b)[|a| + i] == b[i];
    }
  }

  lemma {:induction false} MergeConcat(records: seq<CronRecord>, epoch: Epoch, a: seq<RunRecord>, b: seq<RunRecord>)
    ensures Merge(records, epoch, a + b) == Merge(Merge(records, epoch, a), epoch, b)
  {
    if b == [] {
      assert a + b == a;
    } else {
      MergeConcat(records, epoch, a, b[..|b| - 1]);
      assert (a + b)[..|a + b| - 1] == a + b[..|b| - 1];
    }
  }

  lemma {:induction false} MergeKeeps(records: seq<CronRecord>, epoch: Epoch, ring: seq<RunRecord>)
    ensures records <= Merge(records, epoch, ring)
    ensures Distinct(records) ==> Distinct(Merge(records, epoch, ring))
    ensures forall id :: Contains(Merge(records, epoch, ring), id) <==> Contains(records, id) || InRing(epoch, ring, id)
  {
    if ring != [] {
      var front, last := ring[..|ring| - 1], ring[|ring| - 1];
      MergeKeeps(records, epoch, front);
      var before, after := Merge(records, epoch, front), Merge(records, epoch, ring);
      var id := CronRecord(epoch, last).Identity();
      assert Contains(after, id) by {
        if !Contains(before, id) { assert after[|before|].Identity() == id; }
      }
      forall other ensures InRing(epoch, ring, other) <==> InRing(epoch, front, other) || other == id {
        if InRing(epoch, front, other) {
          var i :| 0 <= i < |front| && CronRecord(epoch, front[i]).Identity() == other;
          assert ring[i] == front[i];
        }
      }
      forall other ensures Contains(after, other) <==> Contains(before, other) || other == id {
        if Contains(before, other) {
          var i :| 0 <= i < |before| && before[i].Identity() == other;
          assert after[i] == before[i];
        }
      }
    }
  }

  lemma {:induction false} MergeKnown(records: seq<CronRecord>, epoch: Epoch, ring: seq<RunRecord>)
    requires forall i :: 0 <= i < |ring| ==> Contains(records, CronRecord(epoch, ring[i]).Identity())
    ensures Merge(records, epoch, ring) == records
  {
    if ring != [] {
      MergeKnown(records, epoch, ring[..|ring| - 1]);
    }
  }

  lemma {:induction false} MergeFresh(records: seq<CronRecord>, epoch: Epoch, ring: seq<RunRecord>)
    requires Distinct(Tag(epoch, ring))
    requires forall i :: 0 <= i < |ring| ==> !Contains(records, CronRecord(epoch, ring[i]).Identity())
    ensures Merge(records, epoch, ring) == records + Tag(epoch, ring)
  {
    if ring != [] {
      var front := ring[..|ring| - 1];
      var tagged := Tag(epoch, ring);
      assert Tag(epoch, front) == tagged[..|front|];
      MergeFresh(records, epoch, front);
      var id := tagged[|front|].Identity();
      ContainsConcat(records, Tag(epoch, front), id);
      assert records + Tag(epoch, front) + [tagged[|front|]] == records + tagged;
    }
  }

  // ---- a whole document ----

  ghost predicate Bounded(jobs: JobMap, perJob: nat) {
    forall name :: name in jobs ==> |jobs[name]| <= perJob && Distinct(jobs[name])
  }

  lemma {:induction false} MergeJobsBounded(jobs: JobMap, epoch: Epoch, entries: seq<JobHistory>, perJob: nat)
    requires Bounded(jobs, perJob)
    ensures Bounded(MergeJobs(jobs, epoch, entries, perJob), perJob)
  {
    if entries != [] {
      var front, last := entries[..|entries| - 1], entries[|entries| - 1];
      MergeJobsBounded(jobs, epoch, front, perJob);
      var before := MergeJobs(jobs, epoch, front, perJob);
      MergeKeeps(JobRecords(before, last.name), epoch, last.records);
    }
  }

  /** A job the document does not mention, or not by an accepted name, keeps its list. */
  lemma {:induction false} MergeJobsOther(jobs: JobMap, epoch: Epoch, entries: seq<JobHistory>, perJob: nat, name: string)
    requires forall i :: 0 <= i < |entries| && AcceptedName(entries[i].name) ==> entries[i].name != name
    ensures JobRecords(MergeJobs(jobs, epoch, entries, perJob), name) == JobRecords(jobs, name)
    ensures name in MergeJobs(jobs, epoch, entries, perJob) <==> name in jobs
  {
    if entries != [] {
      MergeJobsOther(jobs, epoch, entries[..|entries| - 1], perJob, name);
    }
  }

  /** A job the document mentions once receives exactly its own ring, whatever surrounds it. */
  lemma {:induction false} MergeJobsAt(jobs: JobMap, epoch: Epoch, entries: seq<JobHistory>, perJob: nat, at: nat)
    requires NamesDistinct(entries) && at < |entries| && AcceptedName(entries[at].name)
    ensures entries[at].name in MergeJobs(jobs, epoch, entries, perJob)
    ensures JobRecords(MergeJobs(jobs, epoch, entries, perJob), entries[at].name)
         == Newest(Merge(JobRecords(jobs, entries[at].name), epoch, entries[at].records), perJob)
  {
    hide Merge, Newest, AcceptedName;
    var front := entries[..|entries| - 1];
    if at == |front| {
      MergeJobsOther(jobs, epoch, front, perJob, entries[at].name);
    } else {
      MergeJobsAt(jobs, epoch, front, perJob, at);
      assert entries[|front|].name != entries[at].name;
    }
  }

  /** A document all of whose records are retained changes no record list. */
  lemma {:induction false} MergeJobsRetained(jobs: JobMap, epoch: Epoch, entries: seq<JobHistory>, perJob: nat, name: string)
    requires Bounded(jobs, perJob)
    requires AllRetained(jobs, epoch, entries)
    ensures JobRecords(MergeJobs(jobs, epoch, entries, perJob), name) == JobRecords(jobs, name)
  {
    if entries != [] {
      var front, last := entries[..|entries| - 1], entries[|entries| - 1];
      assert AllRetained(jobs, epoch, front) by {
        assert forall e :: 0 <= e < |front| ==> front[e] == entries[e];
      }
      MergeJobsRetained(jobs, epoch, front, perJob, name);
      if last.name == name && AcceptedName(name) {
        MergeKnown(JobRecords(jobs, name), epoch, last.records);
      }
    }
  }

  // ---- how much of a list keeps a ring ----

  /** The identities of `ring` that are not held. */
  function Novel(held: seq<CronRecord>, epoch: Epoch, ring: seq<RunRecord>): set<RecordId> {
    set i | 0 <= i < |ring| && !Contains(held, CronRecord(epoch, ring[i]).Identity()) :: CronRecord(epoch, ring[i]).Identity()
  }

  /** Where the first held record of the ring is; the end when none is held. */
  function FirstHeld(held: seq<CronRecord>, epoch: Epoch, ring: seq<RunRecord>): (at: nat)
    ensures at <= |held|
    ensures forall q :: 0 <= q < at ==> !InRing(epoch, ring, held[q].Identity())
    ensures at < |held| ==> InRing(epoch, ring, held[at].Identity())
  {
    if held == [] || InRing(epoch, ring, held[0].Identity()) then 0 else 1 + FirstHeld(held[1..], epoch, ring)
  }

  /** How many of the newest records a job must keep, once the ring is merged, to keep the whole ring. */
  function Span(held: seq<CronRecord>, epoch: Epoch, ring: seq<RunRecord>): nat {
    |held| - FirstHeld(held, epoch, ring) + |Novel(held, epoch, ring)|
  }

  lemma {:induction false} MergeLength(held: seq<CronRecord>, epoch: Epoch, ring: seq<RunRecord>)
    ensures |Merge(held, epoch, ring)| == |held| + |Novel(held, epoch, ring)|
  {
    if ring == [] {
      assert Novel(held, epoch, ring) == {};
    } else {
      hide Novel, Contains, InRing, Distinct;
      var front, last := ring[..|ring| - 1], ring[|ring| - 1];
      var before, id := Novel(held, epoch, front), CronRecord(epoch, last).Identity();
      MergeLength(held, epoch, front);
      MergeKeeps(held, epoch, front);
      NovelOneMore(held, epoch, front, last);
      assert ring == front + [last];
      assert Contains(Merge(held, epoch, front), id) <==> Contains(held, id) || id in before;
    }
  }

  lemma NovelOneMore(held: seq<CronRecord>, epoch: Epoch, front: seq<RunRecord>, last: RunRecord)
    ensures var before, id := Novel(held, epoch, front), CronRecord(epoch, last).Identity();
            && (forall other :: other in before <==> !Contains(held, other) && InRing(epoch, front, other))
            && Novel(held, epoch, front + [last]) == if Contains(held, id) then before else before + {id}
  {
    hide Contains;
    var ring, before, id := front + [last], Novel(held, epoch, front), CronRecord(epoch, last).Identity();
    forall other ensures other in Novel(held, epoch, ring) <==> other in before || (other == id && !Contains(held, id)) {
      if other in before {
        var i :| 0 <= i < |front| && CronRecord(epoch, front[i]).Identity() == other;
        assert ring[i] == front[i];
      }
      if other == id && !Contains(held, id) { assert ring[|front|] == last; }
    }
  }

  lemma DistinctSides(a: seq<CronRecord>, b: seq<CronRecord>, id: RecordId)
    requires Distinct(a + b) && Contains(a, id)
    ensures !Contains(b, id)
  {
    var i :| 0 <= i < |a| && a[i].Identity() == id;
    forall j | 0 <= j < |b| ensures b[j].Identity() != id {
      assert (a + b)[i] == a[i] && (a + b)[|a| + j] == b[j];
    }
  }

  /** In the merged list the ring's records begin where the first held one is. */
  lemma RingBegins(held: seq<CronRecord>, epoch: Epoch, ring: seq<RunRecord>)
    requires Distinct(held)
    ensures var merged, at := Merge(held, epoch, ring), FirstHeld(held, epoch, ring);
            && at <= |held| <= |merged|
            && (forall q :: 0 <= q < at ==> !InRing(epoch, ring, merged[q].Identity()))
            && (at < |merged| ==> InRing(epoch, ring, merged[at].Identity()))
  {
    var merged, at := Merge(held, epoch, ring), FirstHeld(held, epoch, ring);
    MergeKeeps(held, epoch, ring);
    if |held| <= at < |merged| {
      assert Contains(merged, merged[at].Identity());
    }
  }

  lemma FoundInWindow(merged: seq<CronRecord>, at: nat, n: nat, id: RecordId)
    requires Contains(merged, id) && |merged| - at <= n
    requires forall q :: 0 <= q < at && q < |merged| ==> merged[q].Identity() != id
    ensures Contains(Newest(merged, n), id)
  {
    hide Newest;
    var late := Newest(merged, n);
    var q :| 0 <= q < |merged| && merged[q].Identity() == id;
    assert late[q - (|merged| - |late|)] == merged[q];
  }

  lemma WindowHoldsRing(merged: seq<CronRecord>, epoch: Epoch, ring: seq<RunRecord>, at: nat, n: nat)
    requires RingRetained(merged, epoch, ring) && |merged| - at <= n
    requires forall q :: 0 <= q < at && q < |merged| ==> !InRing(epoch, ring, merged[q].Identity())
    ensures RingRetained(Newest(merged, n), epoch, ring)
  {
    hide Newest, Contains;
    forall i | 0 <= i < |ring| ensures Contains(Newest(merged, n), CronRecord(epoch, ring[i]).Identity()) {
      var id := CronRecord(epoch, ring[i]).Identity();
      assert InRing(epoch, ring, id);
      FoundInWindow(merged, at, n, id);
    }
  }

  lemma WindowCutsRing(merged: seq<CronRecord>, epoch: Epoch, ring: seq<RunRecord>, at: nat, n: nat)
    requires Distinct(merged) && |merged| - at > n && InRing(epoch, ring, merged[at].Identity())
    ensures !RingRetained(Newest(merged, n), epoch, ring)
  {
    var late := Newest(merged, n);
    var early, id := merged[..|merged| - |late|], merged[at].Identity();
    assert merged == early + late;
    assert early[at] == merged[at] && Contains(early, id);
    DistinctSides(early, late, id);
    var i :| 0 <= i < |ring| && CronRecord(epoch, ring[i]).Identity() == id;
    assert !Contains(late, CronRecord(epoch, ring[i]).Identity());
  }

  /** Keeping the newest `n` of the merged list keeps the whole ring exactly from its span on. */
  lemma RetainedIffSpan(held: seq<CronRecord>, epoch: Epoch, ring: seq<RunRecord>, n: nat)
    requires Distinct(held)
    ensures RingRetained(Newest(Merge(held, epoch, ring), n), epoch, ring) <==> Span(held, epoch, ring) <= n
  {
    hide Merge, FirstHeld, Novel, Newest, Distinct, Contains;
    var merged, at := Merge(held, epoch, ring), FirstHeld(held, epoch, ring);
    MergeKeeps(held, epoch, ring);
    MergeLength(held, epoch, ring);
    RingBegins(held, epoch, ring);
    if Span(held, epoch, ring) <= n {
      WindowHoldsRing(merged, epoch, ring, at, n);
    } else {
      WindowCutsRing(merged, epoch, ring, at, n);
    }
  }

  /** For a job with nothing retained the span is the length of the ring. */
  lemma FirstRingSpan(epoch: Epoch, ring: seq<RunRecord>)
    requires Distinct(Tag(epoch, ring))
    ensures Span([], epoch, ring) == |ring|
  {
    MergeIntoEmpty(epoch, ring);
    MergeLength([], epoch, ring);
  }

  // ---- the job ceiling ----

  /** `kept` is part of `jobs`, with every list it keeps untouched. */
  ghost predicate PartOf(kept: JobMap, jobs: JobMap) {
    forall name :: name in kept ==> name in jobs && kept[name] == jobs[name]
  }

  lemma {:induction false} DropToCeilingKeepsLast(jobs: JobMap)
    ensures PartOf(DropToCeiling(jobs), jobs)
    ensures |DropToCeiling(jobs)| == if |jobs| <= MAX_CRON_JOBS_PER_SYSTEM then |jobs| else MAX_CRON_JOBS_PER_SYSTEM
    ensures forall gone, kept :: gone in jobs && gone !in DropToCeiling(jobs) && kept in DropToCeiling(jobs) ==> Less(gone, kept)
    decreases |jobs|
  {
    if |jobs| > MAX_CRON_JOBS_PER_SYSTEM {
      var name := LeastKey(jobs);
      var rest := jobs - {name};
      assert rest.Keys == jobs.Keys - {name};
      assert |rest| == |rest.Keys| == |jobs.Keys| - 1;
      DropToCeilingKeepsLast(rest);
      forall gone, kept | gone in jobs && gone !in DropToCeiling(rest) && kept in DropToCeiling(rest)
        ensures Less(gone, kept)
      {
        if gone == name { assert kept in rest; assert kept in jobs.Keys; } else { assert gone in rest; }
      }
    }
  }

  lemma {:induction false} ListedCount(rows: seq<JobRow>, names: set<string>)
    requires forall name :: name in names ==> JobRow(name) in rows
    ensures |names| <= |rows|
  {
    if rows == [] {
      assert names == {};
    } else {
      var front, last := rows[..|rows| - 1], rows[|rows| - 1].name;
      forall name | name in names - {last} ensures JobRow(name) in front {
        assert JobRow(name) in rows;
      }
      ListedCount(front, names - {last});
      SubsetSize(names, (names - {last}) + {last});
    }
  }

  predicate Listed(summary: Summary, name: string) {
    exists i :: 0 <= i < |summary.jobs| && summary.jobs[i].name == name
  }

  lemma ListedIff(summary: Summary)
    ensures forall name :: Lists(summary, name) <==> Listed(summary, name)
  {
    forall name | Listed(summary, name) ensures Lists(summary, name) {
      var i :| 0 <= i < |summary.jobs| && summary.jobs[i].name == name;
      assert summary.jobs[i] == JobRow(name);
    }
  }

  /**
   * Once a summary is known, what is left after a document is listed by it and numbers at most 64;
   * every list left is the merged one; and a listed job is dropped only for the ceiling, in favour of
   * alphabetically later ones, which a summary of at most 64 rows never provokes.
   */
  lemma EvictStaleBounds(jobs: JobMap, summary: Summary)
    ensures var kept := EvictStale(jobs, Some(summary));
            && PartOf(kept, jobs)
            && |kept| <= 64
            && (forall name :: name in kept ==> Listed(summary, name))
            && (forall gone, stay :: gone in jobs && Listed(summary, gone) && gone !in kept && stay in kept ==> Less(gone, stay))
            && (|summary.jobs| <= 64 ==> forall name :: name in jobs && Listed(summary, name) ==> name in kept)
  {
    ListedIff(summary);
    hide Listed;
    var live := LiveJobs(jobs, summary);
    DropToCeilingKeepsLast(live);
    ListedCount(summary.jobs, live.Keys);
    assert |live| == |live.Keys|;
  }

  // ---- which names remain ----

  /** The names a document mentions, except empty ones and those over 128 bytes. */
  function AcceptedNames(entries: seq<JobHistory>): set<string> {
    set e | 0 <= e < |entries| && entries[e].name != "" && Utf8.Len(entries[e].name) <= 128 :: entries[e].name
  }

  /** A document adds exactly the names it mentions that are neither empty nor over 128 bytes. */
  lemma {:induction false} MergeJobsNames(jobs: JobMap, epoch: Epoch, entries: seq<JobHistory>, perJob: nat)
    ensures MergeJobs(jobs, epoch, entries, perJob).Keys == jobs.Keys + AcceptedNames(entries)
  {
    if entries != [] {
      hide AcceptedNames, Merge, Newest;
      var front, last := entries[..|entries| - 1], entries[|entries| - 1];
      MergeJobsNames(jobs, epoch, front, perJob);
      assert entries == front + [last];
      NamesOneMore(front, last);
    } else {
      assert AcceptedNames(entries) == {};
    }
  }

  lemma NamesOneMore(front: seq<JobHistory>, last: JobHistory)
    ensures AcceptedNames(front + [last]) ==
              AcceptedNames(front) + if last.name != "" && Utf8.Len(last.name) <= 128 then {last.name} else {}
  {
    var all := front + [last];
    assert all[|front|] == last;
    forall name | name in AcceptedNames(front) ensures name in AcceptedNames(all) {
      var e :| 0 <= e < |front| && front[e].name != "" && Utf8.Len(front[e].name) <= 128 && front[e].name == name;
      assert all[e] == front[e];
    }
  }

  /** The names a system holds just before the sweep that ends a document. */
  function NamesAfter(s: SystemView, history: History): set<string> {
    s.jobs.Keys + AcceptedNames(history.jobs)
  }

  function Later(names: set<string>, summary: Summary, name: string): set<string> {
    set n | n in names && Listed(summary, n) && Less(name, n)
  }

  /** With a known summary a job must be listed, with fewer than 64 listed jobs sorting after it. */
  predicate Remains(names: set<string>, summary: Option<Summary>, name: string) {
    summary.Some? ==> Listed(summary.value, name) && |Later(names, summary.value, name)| < 64
  }

  lemma CeilingKeepsIff(jobs: JobMap, summary: Summary, name: string)
    requires name in jobs && Listed(summary, name)
    ensures name in DropToCeiling(LiveJobs(jobs, summary)) <==> |Later(jobs.Keys, summary, name)| < 64
  {
    ListedIff(summary);
    hide Listed;
    var live, later := LiveJobs(jobs, summary), Later(jobs.Keys, summary, name);
    var kept := DropToCeiling(live);
    DropToCeilingKeepsLast(live);
    assert name in live && |live| == |live.Keys| && |kept| == |kept.Keys|;
    if name in kept {
      forall n | n in later ensures n in kept.Keys - {name} {
        assert n in live;
        Trichotomy(name, n);
      }
      SubsetSize(later, kept.Keys - {name});
    } else {
      forall n | n in kept.Keys ensures n in later {
        assert n in live;
      }
      SubsetSize(kept.Keys, later);
    }
  }

  /** What the sweep and the ceiling leave, name by name. */
  lemma RemainsIff(jobs: JobMap, summary: Option<Summary>, name: string)
    ensures name in EvictStale(jobs, summary) <==> name in jobs && Remains(jobs.Keys, summary, name)
    ensures name in EvictStale(jobs, summary) ==> EvictStale(jobs, summary)[name] == jobs[name]
  {
    if summary.Some? {
      EvictStaleBounds(jobs, summary.value);
      hide Listed;
      if name in jobs && Listed(summary.value, name) { CeilingKeepsIff(jobs, summary.value, name); }
    }
  }

  /** Bringing back names the sweep dropped changes nothing: it drops them again. */
  lemma SweepSettles(jobs: JobMap, again: JobMap, summary: Option<Summary>)
    requires EvictStale(jobs, summary).Keys <= again.Keys <= jobs.Keys
    ensures EvictStale(again, summary).Keys == EvictStale(jobs, summary).Keys
  {
    hide DropToCeiling;
    if summary.Some? {
      forall name ensures name in EvictStale(again, summary) <==> name in EvictStale(jobs, summary) {
        RemainsIff(jobs, summary, name);
        RemainsIff(again, summary, name);
        if name in again && Listed(summary.value, name) { LaterSettles(jobs, again, summary.value, name); }
      }
    }
  }

  lemma LaterSettles(jobs: JobMap, again: JobMap, summary: Summary, name: string)
    requires EvictStale(jobs, Some(summary)).Keys <= again.Keys <= jobs.Keys && name in again && Listed(summary, name)
    ensures |Later(again.Keys, summary, name)| < 64 <==> |Later(jobs.Keys, summary, name)| < 64
  {
    ListedIff(summary);
    hide Listed;
    var live := LiveJobs(jobs, summary);
    var kept := DropToCeiling(live);
    SubsetSize(Later(again.Keys, summary, name), Later(jobs.Keys, summary, name));
    CeilingKeepsIff(jobs, summary, name);
    if name !in kept {
      DropToCeilingKeepsLast(live);
      assert name in live && |kept| == |kept.Keys|;
      forall n | n in kept.Keys ensures n in Later(again.Keys, summary, name) {
        assert n in live;
      }
      SubsetSize(kept.Keys, Later(again.Keys, summary, name));
    }
  }

  /** Without a known summary nothing holds the number of jobs down. */
  lemma JobCeilingIff(s: SystemView, history: History, perJob: nat)
    ensures |HistoryApplied(s, history, perJob).jobs| <= 64 <==> s.summary.Some? || |NamesAfter(s, history)| <= 64
    ensures s.summary.None? ==> HistoryApplied(s, history, perJob).jobs.Keys == NamesAfter(s, history)
  {
    var merged := MergeJobs(s.jobs, history.epoch, history.jobs, perJob);
    MergeJobsNames(s.jobs, history.epoch, history.jobs, perJob);
    assert |merged| == |merged.Keys|;
    if s.summary.Some? { EvictStaleBounds(merged, s.summary.value); }
  }

  // ---- applying a document to one system ----

  /** What a document does to one job it mentions. */
  lemma HistoryAppliedAt(s: SystemView, h: History, perJob: nat, at: nat)
    requires NamesDistinct(h.jobs) && at < |h.jobs| && AcceptedName(h.jobs[at].name)
    ensures var name, after := h.jobs[at].name, HistoryApplied(s, h, perJob).jobs;
            && (name in after <==> Remains(NamesAfter(s, h), s.summary, name))
            && (name in after ==> after[name] == Newest(Merge(JobRecords(s.jobs, name), h.epoch, h.jobs[at].records), perJob))
  {
    var merged := MergeJobs(s.jobs, h.epoch, h.jobs, perJob);
    MergeJobsAt(s.jobs, h.epoch, h.jobs, perJob, at);
    MergeJobsNames(s.jobs, h.epoch, h.jobs, perJob);
    RemainsIff(merged, s.summary, h.jobs[at].name);
  }

  /** The first document of a system is cached whole: every job it mentions, with the newest part of its ring. */
  lemma FirstDocumentIsCached(h: History, perJob: nat)
    requires SchedulerValidate.Violations(h) == []
    ensures var jobs := HistoryApplied(UnknownSystem, h, perJob).jobs;
            && jobs.Keys == (set e | 0 <= e < |h.jobs| :: h.jobs[e].name)
            && forall e :: 0 <= e < |h.jobs| ==> jobs[h.jobs[e].name] == Newest(Tag(h.epoch, h.jobs[e].records), perJob)
  {
    hide HistoryApplied, Newest, Merge, SchedulerValidate.Violations, SchedulerValidate.WellFormedRecord;
    SchedulerValidate.AcceptedIffWellFormed(h);
    JobCeilingIff(UnknownSystem, h, perJob);
    forall e | 0 <= e < |h.jobs|
      ensures AcceptedName(h.jobs[e].name) && h.jobs[e].name in AcceptedNames(h.jobs)
      ensures h.jobs[e].name in HistoryApplied(UnknownSystem, h, perJob).jobs
      ensures HistoryApplied(UnknownSystem, h, perJob).jobs[h.jobs[e].name] == Newest(Tag(h.epoch, h.jobs[e].records), perJob)
    {
      assert SchedulerValidate.WellFormedJob(h.jobs[e]);
      HistoryAppliedAt(UnknownSystem, h, perJob, e);
      assert Distinct(Tag(h.epoch, h.jobs[e].records));
      MergeIntoEmpty(h.epoch, h.jobs[e].records);
    }
  }

  /** A document leaves the lists of all other jobs alone. */
  lemma HistoryAppliedOther(s: SystemView, h: History, perJob: nat, name: string)
    requires name !in AcceptedNames(h.jobs)
    ensures var after := HistoryApplied(s, h, perJob).jobs;
            && (name in after <==> name in s.jobs && Remains(NamesAfter(s, h), s.summary, name))
            && (name in after ==> after[name] == s.jobs[name])
  {
    var merged := MergeJobs(s.jobs, h.epoch, h.jobs, perJob);
    MergeJobsOther(s.jobs, h.epoch, h.jobs, perJob, name);
    MergeJobsNames(s.jobs, h.epoch, h.jobs, perJob);
    RemainsIff(merged, s.summary, name);
  }

  /** A document whose records are all retained changes no list; it can only drop jobs that do not remain. */
  lemma RepeatChangesNoList(s: SystemView, h: History, perJob: nat)
    requires Bounded(s.jobs, perJob) && AllRetained(s.jobs, h.epoch, h.jobs)
    ensures var after := HistoryApplied(s, h, perJob).jobs;
            forall name :: && (name in after <==> name in NamesAfter(s, h) && Remains(NamesAfter(s, h), s.summary, name))
                           && (name in after ==> after[name] == JobRecords(s.jobs, name))
  {
    var merged := MergeJobs(s.jobs, h.epoch, h.jobs, perJob);
    MergeJobsNames(s.jobs, h.epoch, h.jobs, perJob);
    var after := HistoryApplied(s, h, perJob).jobs;
    forall name
      ensures name in after <==> name in NamesAfter(s, h) && Remains(NamesAfter(s, h), s.summary, name)
      ensures name in after ==> after[name] == JobRecords(s.jobs, name)
    {
      MergeJobsRetained(s.jobs, h.epoch, h.jobs, perJob, name);
      RemainsIff(merged, s.summary, name);
    }
  }

  // ---- applying a document twice ----

  /** `once` is what a system is after the document, except that lists may have been cut since. */
  ghost predicate HoldsDocument(s: SystemView, once: SystemView, h: History, perJob: nat) {
    && once.jobs.Keys == HistoryApplied(s, h, perJob).jobs.Keys
    && once.summary == s.summary
    && once.epoch == Some(h.epoch) && once.historyRevision == Some(h.historyRevision)
  }

  lemma NamesSettle(s: SystemView, once: SystemView, h: History, perJob: nat)
    requires HoldsDocument(s, once, h, perJob)
    ensures HistoryApplied(once, h, perJob).jobs.Keys == once.jobs.Keys
  {
    hide EvictStale;
    var merged, again := MergeJobs(s.jobs, h.epoch, h.jobs, perJob), MergeJobs(once.jobs, h.epoch, h.jobs, perJob);
    MergeJobsNames(s.jobs, h.epoch, h.jobs, perJob);
    MergeJobsNames(once.jobs, h.epoch, h.jobs, perJob);
    forall name ensures name in EvictStale(merged, s.summary) ==> name in merged {
      RemainsIff(merged, s.summary, name);
    }
    SweepSettles(merged, again, s.summary);
  }

  /** If it still retains every record of the document, the document changes nothing at all. */
  lemma RetainedDocumentSettles(s: SystemView, once: SystemView, h: History, perJob: nat)
    requires HoldsDocument(s, once, h, perJob) && Bounded(once.jobs, perJob) && AllRetained(once.jobs, h.epoch, h.jobs)
    ensures HistoryApplied(once, h, perJob) == once
  {
    hide EvictStale, AllRetained, Bounded;
    NamesSettle(s, once, h, perJob);
    RepeatChangesNoList(once, h, perJob);
    var after := HistoryApplied(once, h, perJob).jobs;
    assert forall name :: name in after ==> after[name] == once.jobs[name];
  }

  ghost predicate Carries(h: History, e: nat) {
    e < |h.jobs| && AcceptedName(h.jobs[e].name) && h.jobs[e].records != []
  }

  /** Job `e` of the document survives the sweep, the job ceiling and its own depth drain. */
  ghost predicate KeepsRing(s: SystemView, h: History, perJob: nat, e: nat)
    requires Carries(h, e)
  {
    && Remains(NamesAfter(s, h), s.summary, h.jobs[e].name)
    && Span(JobRecords(s.jobs, h.jobs[e].name), h.epoch, h.jobs[e].records) <= perJob
  }

  lemma NothingRetained(epoch: Epoch, ring: seq<RunRecord>)
    requires ring != []
    ensures !RingRetained([], epoch, ring)
  {
    assert !Contains([], CronRecord(epoch, ring[0]).Identity());
  }

  lemma RingKeptIff(s: SystemView, h: History, perJob: nat, e: nat)
    requires Bounded(s.jobs, perJob) && NamesDistinct(h.jobs) && Carries(h, e)
    ensures RingRetained(JobRecords(HistoryApplied(s, h, perJob).jobs, h.jobs[e].name), h.epoch, h.jobs[e].records)
       <==> KeepsRing(s, h, perJob, e)
  {
    hide EvictStale, Merge, Span, Newest, Remains;
    HistoryAppliedAt(s, h, perJob, e);
    RetainedIffSpan(JobRecords(s.jobs, h.jobs[e].name), h.epoch, h.jobs[e].records, perJob);
    NothingRetained(h.epoch, h.jobs[e].records);
  }

  /**
   * When a repeated response is a no-op for one system, exactly: it adds nothing if and only if every job for
   * which the document carries records stays listed and within the 64, and holds few enough records since the
   * first one of its ring. Then it also changes nothing.
   */
  lemma RepeatIsNoOpIff(s: SystemView, h: History, perJob: nat)
    requires Bounded(s.jobs, perJob) && NamesDistinct(h.jobs)
    ensures var once := HistoryApplied(s, h, perJob);
            && (AllRetained(once.jobs, h.epoch, h.jobs) <==> forall e: nat :: Carries(h, e) ==> KeepsRing(s, h, perJob, e))
            && (AllRetained(once.jobs, h.epoch, h.jobs) ==> HistoryApplied(once, h, perJob) == once)
  {
    hide KeepsRing, EvictStale, RingRetained, HistoryApplied, Bounded;
    var once := HistoryApplied(s, h, perJob);
    forall e: nat | Carries(h, e)
      ensures RingRetained(JobRecords(once.jobs, h.jobs[e].name), h.epoch, h.jobs[e].records) <==> KeepsRing(s, h, perJob, e)
    {
      RingKeptIff(s, h, perJob, e);
    }
    RetainedIfCarried(once.jobs, h);
    if AllRetained(once.jobs, h.epoch, h.jobs) {
      HistoryAppliedBounded(s, h, perJob);
      HoldsOwnDocument(s, h, perJob);
      RetainedDocumentSettles(s, once, h, perJob);
    }
  }

  lemma {:induction false} MergeEndsNovel(held: seq<CronRecord>, epoch: Epoch, ring: seq<RunRecord>)
    requires !RingRetained(held, epoch, ring)
    ensures var merged := Merge(held, epoch, ring);
            |merged| > |held| && !Contains(held, merged[|merged| - 1].Identity())
  {
    var front := ring[..|ring| - 1];
    MergeKeeps(held, epoch, front);
    if RingRetained(held, epoch, front) {
      MergeKnown(held, epoch, front);
    } else {
      MergeEndsNovel(held, epoch, front);
    }
  }

  /** A ring leaves a list within the depth unchanged exactly when the list retains all of it. */
  lemma UnchangedIffRetained(held: seq<CronRecord>, epoch: Epoch, ring: seq<RunRecord>, perJob: nat)
    requires |held| <= perJob && perJob >= 1
    ensures Newest(Merge(held, epoch, ring), perJob) == held <==> RingRetained(held, epoch, ring)
  {
    if RingRetained(held, epoch, ring) {
      MergeKnown(held, epoch, ring);
    } else {
      MergeEndsNovel(held, epoch, ring);
      var merged := Merge(held, epoch, ring);
      var kept := Newest(merged, perJob);
      assert kept[|kept| - 1] == merged[|merged| - 1];
      assert Contains(kept, kept[|kept| - 1].Identity());
    }
  }

  /**
   * When a repeated response leaves the contents alone, exactly: every job that remains at all keeps its own
   * ring. A job that does not remain is added and dropped again, which reports an addition and changes nothing.
   */
  lemma RepeatLeavesContentsIff(s: SystemView, h: History, perJob: nat)
    requires Bounded(s.jobs, perJob) && NamesDistinct(h.jobs) && perJob >= 1
    ensures var once := HistoryApplied(s, h, perJob);
            HistoryApplied(once, h, perJob) == once <==>
              forall e: nat :: Carries(h, e) && Remains(NamesAfter(s, h), s.summary, h.jobs[e].name) ==> KeepsRing(s, h, perJob, e)
  {
    hide HistoryApplied, KeepsRing, RingRetained, Bounded, Remains;
    var once := HistoryApplied(s, h, perJob);
    var twice := HistoryApplied(once, h, perJob);
    HoldsOwnDocument(s, h, perJob);
    assert twice == once.(jobs := twice.jobs) by { RepeatTouchesJobs(s, h, perJob); }
    NamesSettle(s, once, h, perJob);
    forall e: nat | Carries(h, e)
      ensures h.jobs[e].name in once.jobs <==> Remains(NamesAfter(s, h), s.summary, h.jobs[e].name)
      ensures h.jobs[e].name in once.jobs ==> (twice.jobs[h.jobs[e].name] == once.jobs[h.jobs[e].name] <==> KeepsRing(s, h, perJob, e))
    {
      RepeatAt(s, h, perJob, e);
    }
    if forall e: nat :: Carries(h, e) && h.jobs[e].name in once.jobs ==> KeepsRing(s, h, perJob, e) {
      forall name | name in once.jobs ensures twice.jobs[name] == once.jobs[name] {
        RepeatElsewhere(s, h, perJob, name);
      }
      assert twice.jobs == once.jobs;
    }
  }

  lemma RepeatAt(s: SystemView, h: History, perJob: nat, e: nat)
    requires Bounded(s.jobs, perJob) && NamesDistinct(h.jobs) && perJob >= 1 && Carries(h, e)
    ensures var name, once := h.jobs[e].name, HistoryApplied(s, h, perJob);
            && (name in once.jobs <==> Remains(NamesAfter(s, h), s.summary, name))
            && (name in once.jobs ==> name in HistoryApplied(once, h, perJob).jobs)
            && (name in once.jobs ==> (HistoryApplied(once, h, perJob).jobs[name] == once.jobs[name] <==> KeepsRing(s, h, perJob, e)))
  {
    hide HistoryApplied, KeepsRing, RingRetained, Remains, Merge, Newest;
    var name, once := h.jobs[e].name, HistoryApplied(s, h, perJob);
    HistoryAppliedAt(s, h, perJob, e);
    HistoryAppliedAt(once, h, perJob, e);
    HoldsOwnDocument(s, h, perJob);
    NamesSettle(s, once, h, perJob);
    HistoryAppliedBounded(s, h, perJob);
    RingKeptIff(s, h, perJob, e);
    if name in once.jobs { UnchangedIffRetained(once.jobs[name], h.epoch, h.jobs[e].records, perJob); }
  }

  /** Jobs for which the document carries nothing are never changed by repeating it. */
  lemma RepeatElsewhere(s: SystemView, h: History, perJob: nat, name: string)
    requires NamesDistinct(h.jobs) && Bounded(s.jobs, perJob)
    ensures var once := HistoryApplied(s, h, perJob);
            name in once.jobs && (forall e: nat :: Carries(h, e) ==> h.jobs[e].name != name) ==>
              name in HistoryApplied(once, h, perJob).jobs && HistoryApplied(once, h, perJob).jobs[name] == once.jobs[name]
  {
    hide HistoryApplied, Remains;
    var once := HistoryApplied(s, h, perJob);
    if name in once.jobs && forall e: nat :: Carries(h, e) ==> h.jobs[e].name != name {
      HoldsOwnDocument(s, h, perJob);
      NamesSettle(s, once, h, perJob);
      HistoryAppliedBounded(s, h, perJob);
      if name in AcceptedNames(h.jobs) {
        var e: nat :| e < |h.jobs| && AcceptedName(h.jobs[e].name) && h.jobs[e].name == name;
        assert !Carries(h, e);
        HistoryAppliedAt(once, h, perJob, e);
      } else {
        HistoryAppliedOther(once, h, perJob, name);
      }
    }
  }

  /** Only jobs with records matter to whether a document is retained. */
  lemma RetainedIfCarried(jobs: JobMap, h: History)
    ensures AllRetained(jobs, h.epoch, h.jobs) <==>
              forall e: nat :: Carries(h, e) ==> RingRetained(JobRecords(jobs, h.jobs[e].name), h.epoch, h.jobs[e].records)
  {
    hide AcceptedName;
    if forall e: nat :: Carries(h, e) ==> RingRetained(JobRecords(jobs, h.jobs[e].name), h.epoch, h.jobs[e].records) {
      forall e | 0 <= e < |h.jobs| && AcceptedName(h.jobs[e].name)
        ensures RingRetained(JobRecords(jobs, h.jobs[e].name), h.epoch, h.jobs[e].records)
      {
        assert h.jobs[e].records != [] ==> Carries(h, e);
      }
    }
  }

  lemma RepeatTouchesJobs(s: SystemView, h: History, perJob: nat)
    ensures var once := HistoryApplied(s, h, perJob);
            HistoryApplied(once, h, perJob) == once.(jobs := HistoryApplied(once, h, perJob).jobs)
  {
  }

  lemma HoldsOwnDocument(s: SystemView, h: History, perJob: nat)
    ensures HoldsDocument(s, HistoryApplied(s, h, perJob), h, perJob)
  {
  }

  lemma HistoryAppliedBounded(s: SystemView, history: History, perJob: nat)
    requires Bounded(s.jobs, perJob)
    ensures Bounded(HistoryApplied(s, history, perJob).jobs, perJob)
  {
    var merged := MergeJobs(s.jobs, history.epoch, history.jobs, perJob);
    MergeJobsBounded(s.jobs, history.epoch, history.jobs, perJob);
    if s.summary.Some? { EvictStaleBounds(merged, s.summary.value); }
  }

  /**
   * The failing family in numbers: a ring twice as deep as the cache, served twice to an empty job,
   * leaves its oldest half retained and its newest half gone.
   */
  lemma RepeatedDeepRingKeepsOldest(epoch: Epoch, early: seq<RunRecord>, late: seq<RunRecord>)
    requires |early| == |late| && Distinct(Tag(epoch, early + late))
    ensures Newest(Merge([], epoch, early + late), |late|) == Tag(epoch, late)
    ensures Newest(Merge(Tag(epoch, late), epoch, early + late), |late|) == Tag(epoch, early)
  {
    MergeIntoEmpty(epoch, early + late);
    MergeRotated(epoch, early, late);
    TagConcat(epoch, early, late);
    NewestOfConcat(Tag(epoch, early), Tag(epoch, late));
    NewestOfConcat(Tag(epoch, late), Tag(epoch, early));
  }

  lemma TagConcat(epoch: Epoch, a: seq<RunRecord>, b: seq<RunRecord>)
    ensures Tag(epoch, a + b) == Tag(epoch, a) + Tag(epoch, b)
  {
  }

  lemma NewestOfConcat<T>(a: seq<T>, b: seq<T>)
    ensures Newest(a + b, |b|) == b
  {
  }

  lemma MergeRotated(epoch: Epoch, early: seq<RunRecord>, late: seq<RunRecord>)
    requires Distinct(Tag(epoch, early + late))
    ensures Merge(Tag(epoch, late), epoch, early + late) == Tag(epoch, late) + Tag(epoch, early)
  {
    var first, once := Tag(epoch, early), Tag(epoch, late);
    assert Tag(epoch, early + late) == first + once;
    assert Distinct(first) by {
      assert forall i :: 0 <= i < |first| ==> first[i] == (first + once)[i];
    }
    forall i | 0 <= i < |early| ensures !Contains(once, CronRecord(epoch, early[i]).Identity()) {
      assert Contains(first, first[i].Identity());
      DistinctSides(first, once, first[i].Identity());
    }
    MergeFresh(once, epoch, early);
    KnownAfter(once, first, epoch, late);
    MergeConcat(once, epoch, early, late);
  }

  lemma MergeIntoEmpty(epoch: Epoch, ring: seq<RunRecord>)
    requires Distinct(Tag(epoch, ring))
    ensures Merge([], epoch, ring) == Tag(epoch, ring)
  {
    MergeFresh([], epoch, ring);
    assert [] + Tag(epoch, ring) == Tag(epoch, ring);
  }

  lemma KnownAfter(held: seq<CronRecord>, more: seq<CronRecord>, epoch: Epoch, ring: seq<RunRecord>)
    requires held == Tag(epoch, ring)
    ensures Merge(held + more, epoch, ring) == held + more
  {
    forall i | 0 <= i < |ring| ensures Contains(held + more, CronRecord(epoch, ring[i]).Identity()) {
      assert (held + more)[i] == CronRecord(epoch, ring[i]);
    }
    MergeKnown(held + more, epoch, ring);
  }
}
