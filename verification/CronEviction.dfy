/** The fleet-wide record ceiling: counting, the eviction order, and what eviction leaves. */
module CronEviction {
  import opened Basics
  import opened StringOrder
  import opened CronModel

  datatype JobKey = JobKey(system: string, job: string)

  /** Every job's records, across all systems. */
  type Shelf = map<JobKey, seq<CronRecord>>

  // ---- counting ----

  ghost function CountIn(shelf: Shelf, keys: set<JobKey>): nat
    requires keys <= shelf.Keys
  {
    if keys == {} then 0 else
      var k :| k in keys;
      |shelf[k]| + CountIn(shelf, keys - {k})
  }

  ghost function Count(shelf: Shelf): nat {
    CountIn(shelf, shelf.Keys)
  }

  lemma {:induction false} CountTake(shelf: Shelf, keys: set<JobKey>, k: JobKey)
    requires keys <= shelf.Keys && k in keys
    ensures CountIn(shelf, keys) == |shelf[k]| + CountIn(shelf, keys - {k})
    decreases keys
  {
    var first :| first in keys && CountIn(shelf, keys) == |shelf[first]| + CountIn(shelf, keys - {first});
    if first != k {
      CountTake(shelf, keys - {first}, k);
      CountTake(shelf, keys - {k}, first);
      assert keys - {first} - {k} == keys - {k} - {first};
    }
  }

  lemma {:induction false} CountMonotone(a: Shelf, b: Shelf, keys: set<JobKey>)
    requires keys <= a.Keys && keys <= b.Keys
    requires forall k :: k in keys ==> |a[k]| <= |b[k]|
    ensures CountIn(a, keys) <= CountIn(b, keys)
    ensures (exists k :: k in keys && |a[k]| < |b[k]|) ==> CountIn(a, keys) < CountIn(b, keys)
    decreases keys
  {
    if keys != {} {
      var k :| k in keys;
      CountTake(a, keys, k);
      CountTake(b, keys, k);
      CountMonotone(a, b, keys - {k});
    }
  }

  // ---- the victim ----

  /** The eviction key: oldest first, ties by `(system, job)`. */
  datatype OldestRecord = OldestRecord(finished: u64, system: string, job: string)

  predicate Before(a: OldestRecord, b: OldestRecord) {
    || a.finished < b.finished
    || (a.finished == b.finished && (Less(a.system, b.system) || (a.system == b.system && AtMost(a.job, b.job))))
  }

  lemma BeforeIsTotalOrder(a: OldestRecord, b: OldestRecord, c: OldestRecord)
    ensures Before(a, b) || Before(b, a)
    ensures Before(a, b) && Before(b, a) ==> a == b
    ensures Before(a, b) && Before(b, c) ==> Before(a, c)
  {
    Trichotomy(a.system, b.system);
    Trichotomy(a.job, b.job);
    if Less(a.system, b.system) && Less(b.system, c.system) { Transitive(a.system, b.system, c.system); }
    if Less(a.job, b.job) && Less(b.job, c.job) { Transitive(a.job, b.job, c.job); }
  }

  /** Finish time `x` of job `a` is older than `y` of job `b`, or ties with it and `(system, job)` does not decide for `b`. */
  predicate NoYounger(x: u64, a: JobKey, y: u64, b: JobKey) {
    x < y || (x == y && (a == b || Less(a.system, b.system) || (a.system == b.system && Less(a.job, b.job))))
  }

  lemma BeforeIff(x: u64, a: JobKey, y: u64, b: JobKey)
    ensures Before(OldestRecord(x, a.system, a.job), OldestRecord(y, b.system, b.job)) <==> NoYounger(x, a, y, b)
  {
    Trichotomy(a.system, b.system);
    Trichotomy(a.job, b.job);
  }

  function KeyOf(k: JobKey, r: CronRecord): OldestRecord {
    OldestRecord(r.record.finished, k.system, k.job)
  }

  /** `k` holds the record whose key is least among the first records of all jobs. */
  ghost predicate IsVictim(shelf: Shelf, k: JobKey) {
    && k in shelf && shelf[k] != []
    && forall other :: other in shelf && shelf[other] != [] ==> Before(KeyOf(k, shelf[k][0]), KeyOf(other, shelf[other][0]))
  }

  lemma VictimUnique(shelf: Shelf, a: JobKey, b: JobKey)
    requires IsVictim(shelf, a) && IsVictim(shelf, b)
    ensures a == b
  {
    BeforeIsTotalOrder(KeyOf(a, shelf[a][0]), KeyOf(b, shelf[b][0]), KeyOf(a, shelf[a][0]));
  }

  ghost predicate LeastHead(shelf: Shelf, keys: set<JobKey>, k: JobKey) {
    && k in keys && k in shelf && shelf[k] != []
    && forall other :: other in keys && other in shelf && shelf[other] != [] ==>
         Before(KeyOf(k, shelf[k][0]), KeyOf(other, shelf[other][0]))
  }

  lemma LeastHeadGrow(shelf: Shelf, keys: set<JobKey>, best: JobKey, k: JobKey)
    requires LeastHead(shelf, keys, best) && k in shelf
    ensures LeastHead(shelf, keys + {k},
              if shelf[k] == [] || Before(KeyOf(best, shelf[best][0]), KeyOf(k, shelf[k][0])) then best else k)
  {
    if shelf[k] != [] {
      var x, y := KeyOf(best, shelf[best][0]), KeyOf(k, shelf[k][0]);
      BeforeIsTotalOrder(x, y, x);
      BeforeIsTotalOrder(y, y, y);
      if !Before(x, y) {
        forall other | other in keys && other in shelf && shelf[other] != []
          ensures Before(y, KeyOf(other, shelf[other][0]))
        {
          BeforeIsTotalOrder(y, x, KeyOf(other, shelf[other][0]));
        }
      }
    }
  }

  lemma LeastHeadExists(shelf: Shelf, keys: set<JobKey>)
    requires keys <= shelf.Keys && exists k :: k in keys && shelf[k] != []
    ensures exists k :: LeastHead(shelf, keys, k)
    decreases keys
  {
    var k :| k in keys && shelf[k] != [];
    var rest := keys - {k};
    if exists other :: other in rest && shelf[other] != [] {
      LeastHeadExists(shelf, rest);
      var best :| LeastHead(shelf, rest, best);
      LeastHeadGrow(shelf, rest, best, k);
      assert rest + {k} == keys;
    } else {
      BeforeIsTotalOrder(KeyOf(k, shelf[k][0]), KeyOf(k, shelf[k][0]), KeyOf(k, shelf[k][0]));
      assert LeastHead(shelf, keys, k);
    }
  }

  lemma VictimExists(shelf: Shelf)
    requires Count(shelf) > 0
    ensures exists k :: IsVictim(shelf, k)
  {
    if forall k :: k in shelf ==> shelf[k] == [] {
      CountEmpty(shelf, shelf.Keys);
    } else {
      LeastHeadExists(shelf, shelf.Keys);
      var k :| LeastHead(shelf, shelf.Keys, k);
      assert IsVictim(shelf, k);
    }
  }

  lemma {:induction false} CountEmpty(shelf: Shelf, keys: set<JobKey>)
    requires keys <= shelf.Keys && forall k :: k in keys ==> shelf[k] == []
    ensures CountIn(shelf, keys) == 0
    decreases keys
  {
    if keys != {} {
      var k :| k in keys && CountIn(shelf, keys) == |shelf[k]| + CountIn(shelf, keys - {k});
      CountEmpty(shelf, keys - {k});
    }
  }

  // ---- evicting ----

  ghost function Victim(shelf: Shelf): (k: JobKey)
    requires Count(shelf) > 0
    ensures IsVictim(shelf, k)
  {
    VictimExists(shelf);
    var k :| IsVictim(shelf, k);
    k
  }

  ghost function EvictOne(shelf: Shelf): (after: Shelf)
    requires Count(shelf) > 0
    ensures after.Keys == shelf.Keys
    ensures Count(after) == Count(shelf) - 1
  {
    var k := Victim(shelf);
    TakingHeadCounts(shelf, k);
    shelf[k := shelf[k][1..]]
  }

  lemma TakingHeadCounts(shelf: Shelf, k: JobKey)
    requires k in shelf && shelf[k] != []
    ensures Count(shelf[k := shelf[k][1..]]) == Count(shelf) - 1
  {
    var after := shelf[k := shelf[k][1..]];
    assert after.Keys == shelf.Keys;
    CountTake(shelf, shelf.Keys, k);
    CountTake(after, shelf.Keys, k);
    CountMonotone(shelf, after, shelf.Keys - {k});
    CountMonotone(after, shelf, shelf.Keys - {k});
  }

  ghost function EvictMany(shelf: Shelf, n: nat): Shelf
    decreases n
  {
    if n == 0 || Count(shelf) == 0 then shelf else EvictMany(EvictOne(shelf), n - 1)
  }

  function Excess(count: nat, cap: nat): nat {
    if count > cap then count - cap else 0
  }

  /** `enforce_total`: evict until at most `cap` records are left. */
  ghost function Enforced(shelf: Shelf, cap: nat): Shelf {
    EvictMany(shelf, Excess(Count(shelf), cap))
  }

  lemma EnforcedStep(shelf: Shelf, cap: nat)
    ensures Count(shelf) <= cap ==> Enforced(shelf, cap) == shelf
    ensures Count(shelf) > cap ==> Enforced(EvictOne(shelf), cap) == Enforced(shelf, cap)
  {
  }

  // ---- what eviction leaves ----

  /** `after` keeps a tail of every job: only the oldest-served records of a job are gone. */
  ghost predicate CutOf(after: Shelf, shelf: Shelf) {
    && after.Keys == shelf.Keys
    && forall k :: k in shelf ==> IsSuffix(after[k], shelf[k])
  }

  lemma CutOfTransitive(a: Shelf, b: Shelf, c: Shelf)
    requires CutOf(a, b) && CutOf(b, c)
    ensures CutOf(a, c)
  {
    forall k | k in c ensures IsSuffix(a[k], c[k]) {
      assert IsSuffix(a[k], b[k]) && IsSuffix(b[k], c[k]);
      assert c[k][|c[k]| - |a[k]|..] == b[k][|b[k]| - |a[k]|..];
    }
  }

  lemma EvictOneCuts(shelf: Shelf)
    requires Count(shelf) > 0
    ensures CutOf(EvictOne(shelf), shelf)
  {
  }

  lemma {:induction false} EvictManyCuts(shelf: Shelf, n: nat, after: Shelf)
    requires n <= Count(shelf) && after == EvictMany(shelf, n)
    ensures CutOf(after, shelf)
    ensures Count(after) == Count(shelf) - n
    decreases n
  {
    if n > 0 {
      var mid := EvictOne(shelf);
      EvictManyCuts(mid, n - 1, after);
      EvictOneCuts(shelf);
      CutOfTransitive(after, mid, shelf);
    }
  }

  /** The record at `(k, i)` of `shelf` is gone from `after`. */
  ghost predicate Gone(shelf: Shelf, after: Shelf, k: JobKey, i: int) {
    k in shelf && k in after && 0 <= i < |shelf[k]| - |after[k]|
  }

  ghost predicate Stays(shelf: Shelf, after: Shelf, k: JobKey, i: int) {
    k in shelf && k in after && 0 <= |shelf[k]| - |after[k]| <= i < |shelf[k]|
  }

  /** No evicted record comes after any survivor: it finished earlier, or at the same time in a job named before. */
  ghost predicate OldestFirst(shelf: Shelf, after: Shelf) {
    forall a, i, b, j :: Gone(shelf, after, a, i) && Stays(shelf, after, b, j) ==>
      NoYounger(shelf[a][i].record.finished, a, shelf[b][j].record.finished, b)
  }

  ghost predicate InFinishOrder(shelf: Shelf) {
    forall k, i, j :: k in shelf && 0 <= i < j < |shelf[k]| ==> shelf[k][i].record.finished <= shelf[k][j].record.finished
  }

  // ---- the order of eviction, whatever the contents ----

  /** The latest finish time among the first `i + 1` records. */
  function Peak(records: seq<CronRecord>, i: nat): (peak: u64)
    requires i < |records|
    ensures forall j :: 0 <= j <= i ==> records[j].record.finished <= peak
    ensures exists j :: 0 <= j <= i && records[j].record.finished == peak
  {
    var own := records[i].record.finished;
    if i == 0 then own else
      var before := Peak(records, i - 1);
      if own > before then own else before
  }

  function PeakKey(shelf: Shelf, k: JobKey, i: nat): OldestRecord
    requires k in shelf && i < |shelf[k]|
  {
    OldestRecord(Peak(shelf[k], i), k.system, k.job)
  }

  /** Taking the first record off a list lowers later peaks to what they are without it. */
  lemma {:induction false} PeakWithoutHead(records: seq<CronRecord>, i: nat)
    requires 0 < i < |records|
    ensures var head, rest := records[0].record.finished, Peak(records[1..], i - 1);
            Peak(records, i) == if head > rest then head else rest
  {
    if i > 1 { PeakWithoutHead(records, i - 1); }
  }

  /** No evicted record comes after any survivor in the order of (peak, system, job). */
  ghost predicate PeaksFirst(shelf: Shelf, after: Shelf) {
    forall a, i, b, j :: Gone(shelf, after, a, i) && Stays(shelf, after, b, j) ==>
      Before(PeakKey(shelf, a, i), PeakKey(shelf, b, j))
  }

  lemma PeakGrows(shelf: Shelf, k: JobKey, i: nat, j: nat)
    requires k in shelf && i <= j < |shelf[k]|
    ensures Before(PeakKey(shelf, k, i), PeakKey(shelf, k, j))
    ensures Before(KeyOf(k, shelf[k][i]), PeakKey(shelf, k, j))
  {
    BeforeIsTotalOrder(PeakKey(shelf, k, i), PeakKey(shelf, k, j), PeakKey(shelf, k, j));
  }

  /** Peaks of a shelf against peaks once the head of `v` is gone. */
  lemma PeakOnceHeadGone(shelf: Shelf, v: JobKey, k: JobKey, i: nat)
    requires v in shelf && shelf[v] != [] && k in shelf && i < |shelf[k]| && (k != v || i > 0)
    ensures var mid, i' := shelf[v := shelf[v][1..]], if k == v then i - 1 else i;
            && i' < |mid[k]|
            && Before(PeakKey(mid, k, i'), PeakKey(shelf, k, i))
            && (PeakKey(shelf, k, i) == PeakKey(mid, k, i') || PeakKey(shelf, k, i) == KeyOf(v, shelf[v][0]))
  {
    var key := PeakKey(shelf, k, i);
    BeforeIsTotalOrder(key, key, key);
    if k == v { PeakWithoutHead(shelf[v], i); }
  }

  /** The victim's own head comes before every peak of another job. */
  lemma VictimBeforePeaks(shelf: Shelf, v: JobKey, k: JobKey, j: nat)
    requires IsVictim(shelf, v) && k in shelf && j < |shelf[k]|
    ensures Before(KeyOf(v, shelf[v][0]), PeakKey(shelf, k, j))
  {
    PeakGrows(shelf, k, 0, j);
    BeforeIsTotalOrder(KeyOf(v, shelf[v][0]), KeyOf(k, shelf[k][0]), PeakKey(shelf, k, j));
  }

  lemma PeaksFirstStep(shelf: Shelf, v: JobKey, after: Shelf, a: JobKey, i: nat, b: JobKey, j: nat)
    requires IsVictim(shelf, v)
    requires CutOf(after, shelf[v := shelf[v][1..]]) && PeaksFirst(shelf[v := shelf[v][1..]], after)
    requires Gone(shelf, after, a, i) && Stays(shelf, after, b, j)
    ensures Before(PeakKey(shelf, a, i), PeakKey(shelf, b, j))
  {
    hide Before;
    var mid := shelf[v := shelf[v][1..]];
    var i', j' := if a == v then i - 1 else i, if b == v then j - 1 else j;
    assert IsSuffix(after[b], mid[b]);
    VictimBeforePeaks(shelf, v, b, j);
    if a == v && i == 0 {
      assert PeakKey(shelf, a, i) == KeyOf(v, shelf[v][0]);
    } else {
      assert Gone(mid, after, a, i') && Stays(mid, after, b, j');
      PeakOnceHeadGone(shelf, v, a, i);
      PeakOnceHeadGone(shelf, v, b, j);
      BeforeIsTotalOrder(PeakKey(mid, a, i'), PeakKey(mid, b, j'), PeakKey(shelf, b, j));
    }
  }

  /**
   * Eviction follows the peaks, whatever the contents: `enforce_total` looks at the first record of each job
   * only, so a record goes no earlier than the latest finish time listed before it lets it.
   */
  lemma {:induction false} EvictionFollowsPeaks(shelf: Shelf, n: nat, after: Shelf)
    requires n <= Count(shelf) && after == EvictMany(shelf, n)
    ensures PeaksFirst(shelf, after)
    decreases n
  {
    if n > 0 {
      var mid := EvictOne(shelf);
      EvictionFollowsPeaks(mid, n - 1, after);
      EvictManyCuts(mid, n - 1, after);
      forall a, i, b, j | Gone(shelf, after, a, i) && Stays(shelf, after, b, j)
        ensures Before(PeakKey(shelf, a, i), PeakKey(shelf, b, j))
      {
        PeaksFirstStep(shelf, Victim(shelf), after, a, i, b, j);
      }
    }
  }

  lemma SortedPeaks(shelf: Shelf, k: JobKey, i: nat)
    requires InFinishOrder(shelf) && k in shelf && i < |shelf[k]|
    ensures PeakKey(shelf, k, i) == KeyOf(k, shelf[k][i])
  {
    var j :| 0 <= j <= i && shelf[k][j].record.finished == Peak(shelf[k], i);
    assert shelf[k][j].record.finished <= shelf[k][i].record.finished;
  }

  /** When every job is in finish order, the order of the peaks is the order of the records. */
  lemma SortedEvictsOldestFirst(shelf: Shelf, n: nat, after: Shelf)
    requires InFinishOrder(shelf) && n <= Count(shelf) && after == EvictMany(shelf, n)
    ensures OldestFirst(shelf, after)
  {
    hide InFinishOrder, Before, Count, PeakKey;
    EvictionFollowsPeaks(shelf, n, after);
    forall a, i, b, j | Gone(shelf, after, a, i) && Stays(shelf, after, b, j)
      ensures NoYounger(shelf[a][i].record.finished, a, shelf[b][j].record.finished, b)
    {
      SortedPeaks(shelf, a, i);
      SortedPeaks(shelf, b, j);
      BeforeIff(shelf[a][i].record.finished, a, shelf[b][j].record.finished, b);
    }
  }

  // ---- ranks ----

  datatype Slot = Slot(key: JobKey, index: nat)

  ghost function SlotsIn(shelf: Shelf, keys: set<JobKey>): set<Slot>
    requires keys <= shelf.Keys
  {
    set k, i | k in keys && 0 <= i < |shelf[k]| :: Slot(k, i)
  }

  lemma {:induction false} RowSize(k: JobKey, n: nat)
    ensures |set i: nat | i < n :: Slot(k, i)| == n
  {
    if n == 0 {
      assert (set i: nat | i < n :: Slot(k, i)) == {};
    } else {
      RowSize(k, n - 1);
      var row := set i: nat | i < n - 1 :: Slot(k, i);
      assert (set i: nat | i < n :: Slot(k, i)) == row + {Slot(k, n - 1)};
    }
  }

  /** Counting records is counting the places they are in. */
  lemma {:induction false} SlotsCounted(shelf: Shelf, keys: set<JobKey>)
    requires keys <= shelf.Keys
    ensures |SlotsIn(shelf, keys)| == CountIn(shelf, keys)
    decreases keys
  {
    if keys == {} {
      assert SlotsIn(shelf, keys) == {};
    } else {
      var k :| k in keys;
      CountTake(shelf, keys, k);
      SlotsCounted(shelf, keys - {k});
      RowSize(k, |shelf[k]|);
      var row := set i: nat | i < |shelf[k]| :: Slot(k, i);
      assert SlotsIn(shelf, keys) == SlotsIn(shelf, keys - {k}) + row;
    }
  }

  lemma {:induction false} CountSplits(whole: Shelf, a: Shelf, b: Shelf, keys: set<JobKey>)
    requires keys <= whole.Keys && keys <= a.Keys && keys <= b.Keys
    requires forall k :: k in keys ==> |whole[k]| == |a[k]| + |b[k]|
    ensures CountIn(whole, keys) == CountIn(a, keys) + CountIn(b, keys)
    decreases keys
  {
    if keys != {} {
      var k :| k in keys;
      CountTake(whole, keys, k);
      CountTake(a, keys, k);
      CountTake(b, keys, k);
      CountSplits(whole, a, b, keys - {k});
    }
  }

  ghost function GoneSlots(shelf: Shelf, after: Shelf): set<Slot> {
    set s | s in SlotsIn(shelf, shelf.Keys) && Gone(shelf, after, s.key, s.index)
  }

  lemma GoneCounted(shelf: Shelf, after: Shelf)
    requires CutOf(after, shelf)
    ensures |GoneSlots(shelf, after)| == Count(shelf) - Count(after)
  {
    var cut: Shelf := map k | k in shelf :: shelf[k][..|shelf[k]| - |after[k]|];
    assert cut.Keys == shelf.Keys;
    CountSplits(shelf, cut, after, shelf.Keys);
    SlotsCounted(cut, cut.Keys);
    assert GoneSlots(shelf, after) == SlotsIn(cut, cut.Keys);
  }

  /** The records that eviction takes before record `i` of job `k`: earlier ones of the job, and smaller peaks. */
  ghost function Ahead(shelf: Shelf, k: JobKey, i: nat): set<Slot>
    requires k in shelf && i < |shelf[k]|
  {
    set s | s in SlotsIn(shelf, shelf.Keys) &&
      if s.key == k then s.index < i else NoYounger(Peak(shelf[s.key], s.index), s.key, Peak(shelf[k], i), k)
  }

  /**
   * Eviction in closed form, whatever the contents: a record is evicted if and only if fewer records than the
   * excess are ahead of it.
   */
  lemma EvictedIffRank(shelf: Shelf, cap: nat, k: JobKey, i: nat)
    requires k in shelf && i < |shelf[k]|
    ensures Gone(shelf, Enforced(shelf, cap), k, i) <==> |Ahead(shelf, k, i)| < Excess(Count(shelf), cap)
  {
    hide Count, Before, PeakKey, KeyOf;
    var n := Excess(Count(shelf), cap);
    var after := Enforced(shelf, cap);
    EvictManyCuts(shelf, n, after);
    EvictionFollowsPeaks(shelf, n, after);
    GoneCounted(shelf, after);
    var gone, ahead := GoneSlots(shelf, after), Ahead(shelf, k, i);
    assert IsSuffix(after[k], shelf[k]);
    if Gone(shelf, after, k, i) {
      assert Slot(k, i) in gone;
      forall s | s in ahead ensures s in gone - {Slot(k, i)} {
        AheadIsGone(shelf, after, k, i, s);
      }
      SubsetSize(ahead, gone - {Slot(k, i)});
    } else {
      assert Stays(shelf, after, k, i);
      forall s | s in gone ensures s in ahead {
        GoneIsAhead(shelf, after, k, i, s);
      }
      SubsetSize(gone, ahead);
    }
  }

  lemma GoneIsAhead(shelf: Shelf, after: Shelf, k: JobKey, i: nat, s: Slot)
    requires PeaksFirst(shelf, after) && Stays(shelf, after, k, i) && s in GoneSlots(shelf, after)
    ensures s in Ahead(shelf, k, i)
  {
    hide Before;
    if s.key != k { BeforeIff(Peak(shelf[s.key], s.index), s.key, Peak(shelf[k], i), k); }
  }

  lemma AheadIsGone(shelf: Shelf, after: Shelf, k: JobKey, i: nat, s: Slot)
    requires CutOf(after, shelf) && PeaksFirst(shelf, after) && Gone(shelf, after, k, i) && s in Ahead(shelf, k, i)
    ensures Gone(shelf, after, s.key, s.index)
  {
    hide Before;
    if s.key != k {
      var a, b := PeakKey(shelf, k, i), PeakKey(shelf, s.key, s.index);
      BeforeIsTotalOrder(a, b, a);
      BeforeIff(Peak(shelf[s.key], s.index), s.key, Peak(shelf[k], i), k);
      assert IsSuffix(after[s.key], shelf[s.key]);
      assert !Before(a, b);
      assert !Stays(shelf, after, s.key, s.index);
    }
  }

  /** A job can be brought down to any length by evicting some number of records. */
  lemma {:induction false} ReachLength(shelf: Shelf, k: JobKey, length: nat) returns (n: nat)
    requires k in shelf && length <= |shelf[k]|
    ensures n <= Count(shelf) && k in EvictMany(shelf, n) && |EvictMany(shelf, n)[k]| == length
    decreases Count(shelf)
  {
    if |shelf[k]| == length {
      n := 0;
    } else {
      CountTake(shelf, shelf.Keys, k);
      var m := ReachLength(EvictOne(shelf), k, length);
      n := m + 1;
    }
  }

  /**
   * When eviction is oldest-first, exactly: for every ceiling it evicts no record ahead of an older one
   * if and only if each job's records are in finish order. `enforce_total` looks only at the first
   * record of each job, so any list out of that order breaks the policy for some ceiling. A clock that
   * stepped back makes such a list, and so does an evicted record that a later document brings back.
   */
  lemma OldestFirstIffSorted(shelf: Shelf)
    ensures (forall cap: nat :: OldestFirst(shelf, Enforced(shelf, cap))) <==> InFinishOrder(shelf)
  {
    if InFinishOrder(shelf) {
      forall cap: nat ensures OldestFirst(shelf, Enforced(shelf, cap)) {
        SortedEvictsOldestFirst(shelf, Excess(Count(shelf), cap), Enforced(shelf, cap));
      }
    } else {
      var k, i, j :| k in shelf && 0 <= i < j < |shelf[k]| && shelf[k][i].record.finished > shelf[k][j].record.finished;
      var n := ReachLength(shelf, k, |shelf[k]| - i - 1);
      var cap := Count(shelf) - n;
      assert Excess(Count(shelf), cap) == n;
      assert Gone(shelf, Enforced(shelf, cap), k, i) && Stays(shelf, Enforced(shelf, cap), k, j);
      assert !OldestFirst(shelf, Enforced(shelf, cap));
    }
  }

  /** `enforce_total` removes exactly the excess, from the front of each job. */
  lemma EnforcedRemovesExcess(shelf: Shelf, cap: nat)
    ensures CutOf(Enforced(shelf, cap), shelf)
    ensures Count(Enforced(shelf, cap)) == if Count(shelf) > cap then cap else Count(shelf)
  {
    EvictManyCuts(shelf, Excess(Count(shelf), cap), Enforced(shelf, cap));
  }

  lemma ShorterEverywhere(shelf: Shelf, a: Shelf, b: Shelf)
    requires CutOf(a, shelf) && CutOf(b, shelf) && Count(a) == Count(b)
    requires forall k :: k in shelf ==> |a[k]| <= |b[k]|
    ensures a == b
  {
    CountMonotone(a, b, shelf.Keys);
    forall k | k in shelf ensures a[k] == b[k] {
      assert IsSuffix(a[k], shelf[k]) && IsSuffix(b[k], shelf[k]);
    }
  }

  /**
   * The survivors are a function of the contents: any way of cutting job fronts that keeps as many
   * records and is oldest-first, ties included, keeps the same records.
   */
  lemma OldestFirstUnique(shelf: Shelf, a: Shelf, b: Shelf)
    requires CutOf(a, shelf) && CutOf(b, shelf) && Count(a) == Count(b)
    requires OldestFirst(shelf, a) && OldestFirst(shelf, b)
    ensures a == b
  {
    if forall k :: k in shelf ==> |a[k]| <= |b[k]| {
      ShorterEverywhere(shelf, a, b);
    } else if forall k :: k in shelf ==> |b[k]| <= |a[k]| {
      ShorterEverywhere(shelf, b, a);
    } else {
      var x :| x in shelf && |b[x]| < |a[x]|;
      var y :| y in shelf && |a[y]| < |b[y]|;
      assert IsSuffix(a[x], shelf[x]) && IsSuffix(b[x], shelf[x]) && IsSuffix(a[y], shelf[y]) && IsSuffix(b[y], shelf[y]);
      var i, j := |shelf[x]| - |a[x]|, |shelf[y]| - |b[y]|;
      assert Stays(shelf, a, x, i) && Gone(shelf, a, y, j);
      assert Gone(shelf, b, x, i) && Stays(shelf, b, y, j);
      Trichotomy(x.system, y.system);
      Trichotomy(x.job, y.job);
    }
  }
}
