/**
 * The cache refines an unbounded log: while nothing evicts a job, what is retained for it is the newest
 * window of the deduplicated log of everything the remote ever served for it, across restarts.
 */
module CronLog {
  import opened Basics
  import opened SchedulerWire
  import opened CronModel
  import opened CronMerge
  import opened CronEviction
  import opened CronFleet
  import opened CronRemote

  // ---- the log ----

  /** First occurrences only, by identity. */
  function Dedup(served: seq<CronRecord>): seq<CronRecord> {
    if served == [] then []
    else
      var front, last := Dedup(served[..|served| - 1]), served[|served| - 1];
      if Contains(front, last.Identity()) then front else front + [last]
  }

  lemma {:induction false} DedupAppend(served: seq<CronRecord>, epoch: Epoch, ring: seq<RunRecord>)
    ensures Dedup(served + Tag(epoch, ring)) == Merge(Dedup(served), epoch, ring)
  {
    var all := served + Tag(epoch, ring);
    if ring == [] {
      assert all == served;
    } else {
      var front := ring[..|ring| - 1];
      assert all[..|all| - 1] == served + Tag(epoch, front);
      DedupAppend(served, epoch, front);
    }
  }

  /** The log loses no record and repeats none. */
  lemma {:induction false} DedupKeepsAll(served: seq<CronRecord>)
    ensures Distinct(Dedup(served))
    ensures forall id :: Contains(Dedup(served), id) <==> Contains(served, id)
  {
    if served != [] {
      var front, last := served[..|served| - 1], served[|served| - 1];
      DedupKeepsAll(front);
      assert served == front + [last];
      forall id ensures Contains(Dedup(served), id) <==> Contains(served, id) {
        ContainsConcat(front, [last], id);
        ContainsConcat(Dedup(front), [last], id);
        assert Contains([last], id) <==> [last][0].Identity() == id;
      }
    }
  }

  // ---- one fetch ----

  /** Of the current lifetime, the log holds runs before `seen` only, and ends with the ring as of then. */
  ghost predicate LogTracks(log: seq<CronRecord>, epoch: Epoch, lifetime: seq<RunRecord>, seen: nat, limit: nat) {
    && seen <= |lifetime|
    && (forall i :: 0 <= i < |log| && log[i].epoch == epoch ==> exists j :: 0 <= j < seen && log[i].record == lifetime[j])
    && IsSuffix(Tag(epoch, Newest(lifetime[..seen], limit)), log)
  }

  /** The ring is a part served before, which ends the ring as of then, and a part that is new. */
  lemma RingSplits<T>(lifetime: seq<T>, seen: nat, limit: nat) returns (known: seq<T>, novel: seq<T>)
    requires seen <= |lifetime|
    ensures Newest(lifetime, limit) == known + novel
    ensures IsSuffix(known, Newest(lifetime[..seen], limit))
    ensures |novel| <= |lifetime| - seen && novel == lifetime[|lifetime| - |novel|..]
  {
    hide Newest;
    var from := |lifetime| - |Newest(lifetime, limit)|;
    if from < seen {
      known, novel := lifetime[from..seen], lifetime[seen..];
      var early := lifetime[..seen];
      var before := Newest(early, limit);
      assert early[from..] == known;
      assert before[|before| - |known|..] == early[from..];
    } else {
      known, novel := [], lifetime[from..];
    }
  }

  lemma SuffixTransitive<T>(a: seq<T>, b: seq<T>, c: seq<T>)
    requires IsSuffix(a, b) && IsSuffix(b, c)
    ensures IsSuffix(a, c)
  {
    assert c[|c| - |a|..] == b[|b| - |a|..];
  }

  lemma SuffixGrows<T>(a: seq<T>, b: seq<T>, more: seq<T>)
    requires IsSuffix(a, b)
    ensures IsSuffix(a + more, b + more)
  {
  }

  lemma SuffixOfWindow<T>(a: seq<T>, b: seq<T>, n: nat)
    requires IsSuffix(a, b) && |a| <= n
    ensures IsSuffix(a, Newest(b, n))
  {
  }

  lemma SuffixTag(epoch: Epoch, tail: seq<RunRecord>, whole: seq<RunRecord>)
    requires IsSuffix(tail, whole)
    ensures IsSuffix(Tag(epoch, tail), Tag(epoch, whole))
  {
  }

  lemma SuffixRetained(records: seq<CronRecord>, epoch: Epoch, ring: seq<RunRecord>)
    requires IsSuffix(Tag(epoch, ring), records)
    ensures RingRetained(records, epoch, ring)
  {
    forall i | 0 <= i < |ring| ensures Contains(records, CronRecord(epoch, ring[i]).Identity()) {
      assert records[|records| - |ring| + i] == Tag(epoch, ring)[i];
    }
  }

  ghost predicate NoneIn(records: seq<CronRecord>, epoch: Epoch, ring: seq<RunRecord>) {
    forall i :: 0 <= i < |ring| ==> !Contains(records, CronRecord(epoch, ring[i]).Identity())
  }

  lemma NovelNotLogged(log: seq<CronRecord>, epoch: Epoch, lifetime: seq<RunRecord>, seen: nat, limit: nat, novel: seq<RunRecord>)
    requires LogTracks(log, epoch, lifetime, seen, limit) && Increasing(lifetime)
    requires |novel| <= |lifetime| - seen && novel == lifetime[|lifetime| - |novel|..]
    ensures NoneIn(log, epoch, novel) && Distinct(Tag(epoch, novel))
  {
    var from := |lifetime| - |novel|;
    forall i, k | 0 <= i < |novel| && 0 <= k < |log|
      ensures log[k].Identity() != CronRecord(epoch, novel[i]).Identity()
    {
      if log[k].epoch == epoch {
        var j :| 0 <= j < seen && log[k].record == lifetime[j];
        assert lifetime[j].sequence < lifetime[from + i].sequence;
      }
    }
  }

  /** A list that ends with what was served before takes in exactly the new part of the ring. */
  lemma MergeTakesNovel(records: seq<CronRecord>, epoch: Epoch, known: seq<RunRecord>, novel: seq<RunRecord>)
    requires IsSuffix(Tag(epoch, known), records) && NoneIn(records, epoch, novel) && Distinct(Tag(epoch, novel))
    ensures Merge(records, epoch, known + novel) == records + Tag(epoch, novel)
  {
    SuffixRetained(records, epoch, known);
    MergeKnown(records, epoch, known);
    MergeFresh(records, epoch, novel);
    MergeConcat(records, epoch, known, novel);
  }

  lemma WindowContains(log: seq<CronRecord>, n: nat, id: RecordId)
    ensures Contains(Newest(log, n), id) ==> Contains(log, id)
  {
    var kept := Newest(log, n);
    assert log == log[..|log| - |kept|] + kept;
    ContainsConcat(log[..|log| - |kept|], kept, id);
  }

  /** Merging the ring into the window of the log gives the window of the ring merged into the log. */
  lemma MergeKeepsWindow(log: seq<CronRecord>, epoch: Epoch, known: seq<RunRecord>, novel: seq<RunRecord>, perJob: nat)
    requires IsSuffix(Tag(epoch, known), log) && NoneIn(log, epoch, novel) && Distinct(Tag(epoch, novel))
    requires |known| <= perJob
    ensures Newest(Merge(Newest(log, perJob), epoch, known + novel), perJob) == Newest(Merge(log, epoch, known + novel), perJob)
  {
    var kept := Newest(log, perJob);
    SuffixOfWindow(Tag(epoch, known), log, perJob);
    forall i | 0 <= i < |novel| ensures !Contains(kept, CronRecord(epoch, novel[i]).Identity()) {
      WindowContains(log, perJob, CronRecord(epoch, novel[i]).Identity());
    }
    MergeTakesNovel(log, epoch, known, novel);
    MergeTakesNovel(kept, epoch, known, novel);
    NewestAppend(log, Tag(epoch, novel), perJob);
  }

  lemma TrackingGrows(log: seq<CronRecord>, epoch: Epoch, lifetime: seq<RunRecord>, seen: nat, limit: nat,
                      known: seq<RunRecord>, novel: seq<RunRecord>)
    requires LogTracks(log, epoch, lifetime, seen, limit)
    requires |novel| <= |lifetime| - seen && novel == lifetime[|lifetime| - |novel|..]
    requires Newest(lifetime, limit) == known + novel && IsSuffix(Tag(epoch, known), log)
    ensures LogTracks(log + Tag(epoch, novel), epoch, lifetime, |lifetime|, limit)
  {
    var after := log + Tag(epoch, novel);
    TagConcat(epoch, known, novel);
    SuffixGrows(Tag(epoch, known), log, Tag(epoch, novel));
    assert lifetime[..|lifetime|] == lifetime;
    forall i | 0 <= i < |after| && after[i].epoch == epoch
      ensures exists j :: 0 <= j < |lifetime| && after[i].record == lifetime[j]
    {
      if i >= |log| {
        assert after[i].record == novel[i - |log|] == lifetime[|lifetime| - |novel| + i - |log|];
      }
    }
  }

  /** What a fetch appends to the log are runs that finished since the last one. */
  lemma FetchAppends(log: seq<CronRecord>, epoch: Epoch, lifetime: seq<RunRecord>, seen: nat, limit: nat) returns (novel: seq<RunRecord>)
    requires LogTracks(log, epoch, lifetime, seen, limit) && Increasing(lifetime)
    ensures Merge(log, epoch, Newest(lifetime, limit)) == log + Tag(epoch, novel)
    ensures |novel| <= |lifetime| - seen && novel == lifetime[|lifetime| - |novel|..]
  {
    var known;
    known, novel := RingSplits(lifetime, seen, limit);
    var before := Newest(lifetime[..seen], limit);
    SuffixTag(epoch, known, before);
    SuffixTransitive(Tag(epoch, known), Tag(epoch, before), log);
    NovelNotLogged(log, epoch, lifetime, seen, limit, novel);
    MergeTakesNovel(log, epoch, known, novel);
  }

  /** Fetching the current ring takes the window of the log to the window of the extended log. */
  lemma FetchExtends(log: seq<CronRecord>, epoch: Epoch, lifetime: seq<RunRecord>, seen: nat, limit: nat, perJob: nat)
    requires LogTracks(log, epoch, lifetime, seen, limit) && Increasing(lifetime) && limit <= perJob
    ensures var ring := Newest(lifetime, limit);
            && Newest(Merge(Newest(log, perJob), epoch, ring), perJob) == Newest(Merge(log, epoch, ring), perJob)
            && LogTracks(Merge(log, epoch, ring), epoch, lifetime, |lifetime|, limit)
  {
    var known, novel := RingSplits(lifetime, seen, limit);
    var before := Newest(lifetime[..seen], limit);
    SuffixTag(epoch, known, before);
    SuffixTransitive(Tag(epoch, known), Tag(epoch, before), log);
    NovelNotLogged(log, epoch, lifetime, seen, limit, novel);
    MergeKeepsWindow(log, epoch, known, novel, perJob);
    MergeTakesNovel(log, epoch, known, novel);
    TrackingGrows(log, epoch, lifetime, seen, limit, known, novel);
  }
}
