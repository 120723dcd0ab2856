/** Normalizing native drive candidates, and the wire validator that consumes the result. */
module Drives {
  import opened Basics
  import opened HostModel
  import opened StringOrder
  import Utf8

  const MAX_DRIVE_ENTRIES := 32
  const MAX_DRIVE_NAME_BYTES := 512

  datatype Candidate = Candidate(identity: string, name: string, total: u64, free: u64, available: u64)

  datatype Limits = Limits(maxEntries: nat, maxNameBytes: nat)

  const DefaultLimits := Limits(32, 512)

  // ---- which candidates are usable ----

  /** Characters with the Unicode White_Space property. */
  predicate IsWhitespace(c: char) {
    var v := c as int;
    0x09 <= v <= 0x0D || v == 0x20 || v == 0x85 || v == 0xA0 || v == 0x1680 || 0x2000 <= v <= 0x200A
    || v == 0x2028 || v == 0x2029 || v == 0x202F || v == 0x205F || v == 0x3000
  }

  function Trim(s: string): string {
    if s == "" then ""
    else if IsWhitespace(s[0]) then Trim(s[1..])
    else if IsWhitespace(s[|s| - 1]) then Trim(s[..|s| - 1])
    else s
  }

  predicate IsBlank(s: string) {
    forall i :: 0 <= i < |s| ==> IsWhitespace(s[i])
  }

  /** Trimming takes away whitespace at both ends, all of it and nothing else. */
  lemma {:induction false} TrimIsInside(s: string) returns (from: nat, to: nat)
    ensures from <= to <= |s| && Trim(s) == s[from..to] && IsBlank(s[..from]) && IsBlank(s[to..])
    ensures from < to ==> !IsWhitespace(s[from]) && !IsWhitespace(s[to - 1])
  {
    hide IsWhitespace, IsBlank;
    if s == "" {
      from, to := 0, 0;
      NothingIsBlank();
    } else if IsWhitespace(s[0]) {
      from, to := TrimIsInside(s[1..]);
      InsideTail(s, from, to);
      from, to := from + 1, to + 1;
    } else if IsWhitespace(s[|s| - 1]) {
      from, to := TrimIsInside(s[..|s| - 1]);
      InsideFront(s, from, to);
    } else {
      from, to := 0, |s|;
      assert s[..0] == "" && s[|s|..] == "" && s[0..|s|] == s;
      NothingIsBlank();
    }
  }

  lemma InsideTail(s: string, from: nat, to: nat)
    requires s != "" && from <= to < |s| && IsWhitespace(s[0]) && IsBlank(s[1..][..from]) && IsBlank(s[1..][to..])
    ensures s[1..][from..to] == s[from + 1..to + 1] && IsBlank(s[..from + 1]) && IsBlank(s[to + 1..])
  {
    hide IsWhitespace, IsBlank;
    assert s[1..][to..] == s[to + 1..];
    assert s[..from + 1] == [s[0]] + s[1..][..from];
    BlankConcat([s[0]], s[1..][..from]);
  }

  lemma InsideFront(s: string, from: nat, to: nat)
    requires s != "" && from <= to < |s| && IsWhitespace(s[|s| - 1]) && IsBlank(s[..|s| - 1][..from]) && IsBlank(s[..|s| - 1][to..])
    ensures s[..|s| - 1][from..to] == s[from..to] && IsBlank(s[..from]) && IsBlank(s[to..])
  {
    hide IsWhitespace, IsBlank;
    assert s[..|s| - 1][..from] == s[..from];
    assert s[to..] == s[..|s| - 1][to..] + [s[|s| - 1]];
    BlankConcat(s[..|s| - 1][to..], [s[|s| - 1]]);
  }

  lemma NothingIsBlank()
    ensures IsBlank("")
  {
  }

  lemma BlankConcat(a: string, b: string)
    ensures IsBlank(a + b) <==> IsBlank(a) && IsBlank(b)
    ensures |a| == 1 ==> (IsBlank(a) <==> IsWhitespace(a[0]))
    ensures |b| == 1 ==> (IsBlank(b) <==> IsWhitespace(b[0]))
  {
    hide IsWhitespace;
    var s := a + b;
    assert forall i :: 0 <= i < |a| ==> s[i] == a[i];
    assert forall i :: 0 <= i < |b| ==> s[|a| + i] == b[i];
  }

  lemma TrimmedAway(s: string)
    ensures Trim(s) == "" <==> IsBlank(s)
  {
    hide IsWhitespace;
    var from, to := TrimIsInside(s);
    if from == to {
      assert s == s[..from] + s[to..];
      BlankConcat(s[..from], s[to..]);
    }
  }

  predicate Usable(c: Candidate, limits: Limits) {
    && c.identity != "" && c.name != "" && Trim(c.name) != "" && '\0' !in c.name
    && Utf8.Len(c.name) <= limits.maxNameBytes
    && c.total > 0 && c.free <= c.total && c.available <= c.total
  }

  function Retain(s: seq<Candidate>, limits: Limits): seq<Candidate> {
    if s == [] then []
    else Retain(s[..|s| - 1], limits) + (if Usable(s[|s| - 1], limits) then [s[|s| - 1]] else [])
  }

  /** What makes a candidate worth a record, field by field. */
  predicate Sound(c: Candidate, limits: Limits) {
    && |c.identity| > 0 && !IsBlank(c.name) && (forall i :: 0 <= i < |c.name| ==> c.name[i] as int != 0)
    && Utf8.Len(c.name) <= limits.maxNameBytes
    && 0 < c.total && c.free <= c.total && c.available <= c.total
  }

  lemma UsableIffSound(c: Candidate, limits: Limits)
    ensures Usable(c, limits) <==> Sound(c, limits)
  {
    hide Trim, IsWhitespace, Utf8.Len;
    TrimmedAway(c.name);
    assert '\0' in c.name <==> exists i :: 0 <= i < |c.name| && c.name[i] == '\0';
  }

  // ---- sorting and removing duplicates ----

  datatype Order = ByIdentityThenName | ByName

  /** `a` sorts after `b`. */
  predicate Above(o: Order, a: Candidate, b: Candidate) {
    match o
    case ByIdentityThenName => Less(b.identity, a.identity) || (a.identity == b.identity && Less(b.name, a.name))
    case ByName => Less(b.name, a.name)
  }

  /** Insert after everything that does not sort above `x`. */
  function Insert(o: Order, s: seq<Candidate>, x: Candidate): seq<Candidate> {
    if s == [] || !Above(o, s[|s| - 1], x) then s + [x]
    else Insert(o, s[..|s| - 1], x) + [s[|s| - 1]]
  }

  /** A stable sort: equal elements keep their order. */
  function StableSort(o: Order, s: seq<Candidate>): seq<Candidate> {
    if s == [] then [] else Insert(o, StableSort(o, s[..|s| - 1]), s[|s| - 1])
  }

  /** Of consecutive candidates with one identity, the first. */
  function DedupByIdentity(s: seq<Candidate>): seq<Candidate> {
    if |s| <= 1 then s
    else
      var front := DedupByIdentity(s[..|s| - 1]);
      if s[|s| - 2].identity == s[|s| - 1].identity then front else front + [s[|s| - 1]]
  }

  function Ranked(input: seq<Candidate>, limits: Limits): seq<Candidate> {
    StableSort(ByName, DedupByIdentity(StableSort(ByIdentityThenName, Retain(input, limits))))
  }

  predicate AllFit(s: seq<Candidate>) {
    forall i :: 0 <= i < |s| ==> s[i].free <= s[i].total
  }

  function Metrics(s: seq<Candidate>): (m: seq<DriveMetrics>)
    requires AllFit(s)
    ensures |m| == |s|
    ensures forall i :: 0 <= i < |s| ==>
              m[i].name == s[i].name && m[i].usedBytes + s[i].free == m[i].totalBytes == s[i].total && m[i].availableBytes == Some(s[i].available)
  {
    seq(|s|, i requires 0 <= i < |s| =>
      DriveMetrics(s[i].name, s[i].total - s[i].free, s[i].total, Some(s[i].available)))
  }

  function Take<T>(s: seq<T>, n: nat): seq<T> {
    if |s| <= n then s else s[..n]
  }

  // ---- what is chosen ----

  /** The least-named candidate of one identity; of equal names, the earliest. */
  function Best(s: seq<Candidate>, identity: string): Option<Candidate> {
    if s == [] then None
    else
      var b, last := Best(s[..|s| - 1], identity), s[|s| - 1];
      if last.identity == identity && (b.None? || Less(last.name, b.value.name)) then Some(last) else b
  }

  lemma {:induction false} BestIsLeast(s: seq<Candidate>, identity: string)
    ensures Best(s, identity).None? <==> forall i :: 0 <= i < |s| ==> s[i].identity != identity
    ensures Best(s, identity).Some? ==>
              var b := Best(s, identity).value;
              b in s && b.identity == identity && forall c :: c in s && c.identity == identity ==> AtMost(b.name, c.name)
  {
    if s != [] {
      var front, last := s[..|s| - 1], s[|s| - 1];
      BestIsLeast(front, identity);
      assert s == front + [last];
      if last.identity == identity && Best(front, identity).Some? {
        var b := Best(front, identity).value;
        Trichotomy(last.name, b.name);
        forall c | c in front && c.identity == identity && Less(last.name, b.name) ensures AtMost(last.name, c.name) {
          if b.name != c.name { Transitive(last.name, b.name, c.name); }
        }
      }
    }
  }

  /** Before the chosen candidate, every other one of its identity has a greater name. */
  lemma {:induction false} BestIsEarliest(s: seq<Candidate>, identity: string) returns (at: nat)
    requires Best(s, identity).Some?
    ensures at < |s| && s[at] == Best(s, identity).value
    ensures forall j :: 0 <= j < at && s[j].identity == identity ==> Less(s[at].name, s[j].name)
  {
    var front, last := s[..|s| - 1], s[|s| - 1];
    BestIsLeast(front, identity);
    if Best(s, identity) == Best(front, identity) && Best(front, identity).Some? {
      at := BestIsEarliest(front, identity);
    } else {
      at := |front|;
      forall j | 0 <= j < at && s[j].identity == identity ensures Less(last.name, s[j].name) {
        assert s[j] == front[j] && front[j] in front;
        var b := Best(front, identity).value;
        if b.name != s[j].name { Transitive(last.name, b.name, s[j].name); }
      }
    }
  }

  /** The first candidate of one identity. */
  function FirstOf(s: seq<Candidate>, identity: string): Option<Candidate> {
    if s == [] then None
    else
      var f := FirstOf(s[..|s| - 1], identity);
      if f.None? && s[|s| - 1].identity == identity then Some(s[|s| - 1]) else f
  }

  ghost predicate Sorted(o: Order, s: seq<Candidate>) {
    forall i, j :: 0 <= i < j < |s| ==> !Above(o, s[i], s[j])
  }

  lemma AboveOrder(o: Order, a: Candidate, b: Candidate, c: Candidate)
    ensures Above(o, a, b) ==> !Above(o, b, a)
    ensures Above(o, a, b) && Above(o, b, c) ==> Above(o, a, c)
    ensures Above(o, a, b) && !Above(o, c, b) ==> Above(o, a, c)
  {
    Trichotomy(a.identity, b.identity);
    Trichotomy(c.identity, b.identity);
    Trichotomy(a.name, b.name);
    Trichotomy(c.name, b.name);
    if Less(c.identity, b.identity) && Less(b.identity, a.identity) { Transitive(c.identity, b.identity, a.identity); }
    if Less(c.name, b.name) && Less(b.name, a.name) { Transitive(c.name, b.name, a.name); }
  }

  lemma {:induction false} InsertMembers(o: Order, s: seq<Candidate>, x: Candidate)
    ensures forall c :: c in Insert(o, s, x) <==> c in s || c == x
  {
    if s != [] {
      var front, last := s[..|s| - 1], s[|s| - 1];
      assert s == front + [last];
      InsertMembers(o, front, x);
    }
  }

  lemma {:induction false} InsertPermutes(o: Order, s: seq<Candidate>, x: Candidate)
    ensures multiset(Insert(o, s, x)) == multiset(s) + multiset{x}
  {
    if s != [] {
      assert s == s[..|s| - 1] + [s[|s| - 1]];
      InsertPermutes(o, s[..|s| - 1], x);
    }
  }

  lemma AppendSorted(o: Order, s: seq<Candidate>, x: Candidate)
    requires Sorted(o, s) && forall c :: c in s ==> !Above(o, c, x)
    ensures Sorted(o, s + [x])
  {
  }

  lemma {:induction false} InsertSorted(o: Order, s: seq<Candidate>, x: Candidate)
    requires Sorted(o, s)
    ensures Sorted(o, Insert(o, s, x))
  {
    if s == [] {
      AppendSorted(o, s, x);
    } else {
      var front, last := s[..|s| - 1], s[|s| - 1];
      assert s == front + [last];
      if Above(o, last, x) {
        InsertSorted(o, front, x);
        InsertMembers(o, front, x);
        AboveOrder(o, last, x, last);
        AppendSorted(o, Insert(o, front, x), last);
      } else {
        forall c | c in s ensures !Above(o, c, x) { AboveOrder(o, c, x, last); }
        AppendSorted(o, s, x);
      }
    }
  }

  lemma {:induction false} SortPermutes(o: Order, s: seq<Candidate>)
    ensures multiset(StableSort(o, s)) == multiset(s)
  {
    if s != [] {
      hide Insert;
      var front, last := s[..|s| - 1], s[|s| - 1];
      SortPermutes(o, front);
      InsertPermutes(o, StableSort(o, front), last);
      assert s == front + [last];
    }
  }

  lemma {:induction false} SortIsSorted(o: Order, s: seq<Candidate>)
    ensures Sorted(o, StableSort(o, s))
    ensures multiset(StableSort(o, s)) == multiset(s)
  {
    SortPermutes(o, s);
    if s == [] {
      NoneSorted(o);
    } else {
      hide Insert, Sorted;
      SortIsSorted(o, s[..|s| - 1]);
      InsertSorted(o, StableSort(o, s[..|s| - 1]), s[|s| - 1]);
    }
  }

  lemma NoneSorted(o: Order)
    ensures Sorted(o, [])
  {
  }

  lemma {:induction false} FirstOfIsIn(s: seq<Candidate>, identity: string)
    ensures FirstOf(s, identity).Some? ==> FirstOf(s, identity).value in s && FirstOf(s, identity).value.identity == identity
    ensures FirstOf(s, identity).None? <==> forall i :: 0 <= i < |s| ==> s[i].identity != identity
  {
    if s != [] {
      FirstOfIsIn(s[..|s| - 1], identity);
      assert s == s[..|s| - 1] + [s[|s| - 1]];
    }
  }

  lemma FirstOfAppend(s: seq<Candidate>, x: Candidate, identity: string)
    ensures FirstOf(s + [x], identity) ==
              if FirstOf(s, identity).None? && x.identity == identity then Some(x) else FirstOf(s, identity)
  {
    assert (s + [x])[..|s|] == s;
  }

  /** Inserting changes the first of an identity exactly when the new candidate has a smaller name. */
  lemma {:induction false} FirstOfInsert(s: seq<Candidate>, x: Candidate, identity: string)
    requires Sorted(ByIdentityThenName, s)
    ensures FirstOf(Insert(ByIdentityThenName, s, x), identity) ==
              var f := FirstOf(s, identity);
              if x.identity == identity && (f.None? || Less(x.name, f.value.name)) then Some(x) else f
  {
    var f := FirstOf(s, identity);
    FirstOfIsIn(s, identity);
    if s == [] {
      FirstOfAppend(s, x, identity);
    } else {
      var front, last := s[..|s| - 1], s[|s| - 1];
      assert s == front + [last];
      if Above(ByIdentityThenName, last, x) {
        FirstOfInsert(front, x, identity);
        FirstOfAppend(Insert(ByIdentityThenName, front, x), last, identity);
        FirstOfAppend(front, last, identity);
        Trichotomy(x.identity, last.identity);
      } else {
        FirstOfAppend(s, x, identity);
        if f.Some? {
          AboveOrder(ByIdentityThenName, f.value, x, last);
          assert !Above(ByIdentityThenName, f.value, last) || f.value == last;
        }
      }
    }
  }

  lemma {:induction false} FirstOfSortIsBest(s: seq<Candidate>, identity: string)
    ensures FirstOf(StableSort(ByIdentityThenName, s), identity) == Best(s, identity)
  {
    if s != [] {
      var front := s[..|s| - 1];
      FirstOfSortIsBest(front, identity);
      SortIsSorted(ByIdentityThenName, front);
      FirstOfInsert(StableSort(ByIdentityThenName, front), s[|s| - 1], identity);
    }
  }

  ghost predicate IdentitiesIncrease(s: seq<Candidate>) {
    forall i, j :: 0 <= i < j < |s| ==> Less(s[i].identity, s[j].identity)
  }

  lemma PastFront(s: seq<Candidate>, identity: string)
    requires Sorted(ByIdentityThenName, s) && s != [] && Less(s[|s| - 1].identity, identity)
    ensures forall i :: 0 <= i < |s| ==> Less(s[i].identity, identity)
  {
    var last := s[|s| - 1];
    forall i | 0 <= i < |s| ensures Less(s[i].identity, identity) {
      if i < |s| - 1 {
        assert !Above(ByIdentityThenName, s[i], last);
        Trichotomy(s[i].identity, last.identity);
        if Less(s[i].identity, last.identity) { Transitive(s[i].identity, last.identity, identity); }
      }
    }
  }

  /** `r` is the first candidate of every identity of `s`, in identity order. */
  ghost predicate Firsts(s: seq<Candidate>, r: seq<Candidate>) {
    && IdentitiesIncrease(r)
    && (forall c :: c in r <==> FirstOf(s, c.identity) == Some(c))
    && (s != [] ==> r != [] && r[|r| - 1].identity == s[|s| - 1].identity)
  }

  lemma AppendGreatest(r: seq<Candidate>, last: Candidate)
    requires IdentitiesIncrease(r) && (r != [] ==> Less(r[|r| - 1].identity, last.identity))
    ensures IdentitiesIncrease(r + [last])
  {
    forall i | 0 <= i < |r| ensures Less(r[i].identity, last.identity) {
      if i < |r| - 1 { Transitive(r[i].identity, r[|r| - 1].identity, last.identity); }
    }
  }

  lemma FirstsStep(front: seq<Candidate>, last: Candidate, r: seq<Candidate>)
    requires front != [] && Sorted(ByIdentityThenName, front + [last]) && Firsts(front, r)
    ensures Firsts(front + [last], if front[|front| - 1].identity == last.identity then r else r + [last])
  {
    var s, prev := front + [last], front[|front| - 1];
    assert Sorted(ByIdentityThenName, front) by { assert forall i :: 0 <= i < |front| ==> s[i] == front[i]; }
    assert !Above(ByIdentityThenName, s[|front| - 1], s[|front|]);
    Trichotomy(prev.identity, last.identity);
    if prev.identity != last.identity {
      PastFront(front, last.identity);
      Trichotomy(last.identity, last.identity);
      AppendGreatest(r, last);
    }
    FirstOfIsIn(front, last.identity);
    forall c: Candidate ensures FirstOf(s, c.identity) == Some(c) <==> c in r || (prev.identity != last.identity && c == last) {
      FirstOfAppend(front, last, c.identity);
    }
  }

  lemma NoneIsFirst()
    ensures Firsts([], [])
  {
  }

  lemma OneIsFirst(x: Candidate)
    ensures Firsts([x], [x])
  {
    assert [x] == [] + [x];
    forall c: Candidate ensures c in [x] <==> FirstOf([x], c.identity) == Some(c) { FirstOfAppend([], x, c.identity); }
  }

  lemma SortedFront(s: seq<Candidate>)
    requires Sorted(ByIdentityThenName, s) && s != []
    ensures Sorted(ByIdentityThenName, s[..|s| - 1])
  {
  }

  /** Removing duplicates from a sorted list keeps the first of every identity, once. */
  lemma {:induction false} DedupKeepsFirsts(s: seq<Candidate>)
    requires Sorted(ByIdentityThenName, s)
    ensures Firsts(s, DedupByIdentity(s))
  {
    hide Sorted, Firsts;
    if s == [] {
      NoneIsFirst();
    } else if |s| == 1 {
      OneIsFirst(s[0]);
      assert s == [s[0]];
    } else {
      var front, last := s[..|s| - 1], s[|s| - 1];
      SortedFront(s);
      DedupKeepsFirsts(front);
      assert s == front + [last];
      FirstsStep(front, last, DedupByIdentity(front));
    }
  }

  // ---- the ranking ----

  predicate RanksBefore(a: Candidate, b: Candidate) {
    Less(a.name, b.name) || (a.name == b.name && Less(a.identity, b.identity))
  }

  /** Strictly increasing in (name, identity). */
  ghost predicate InRankOrder(s: seq<Candidate>) {
    forall i, j :: 0 <= i < j < |s| ==> RanksBefore(s[i], s[j])
  }

  lemma RankIsStrict(a: Candidate, b: Candidate, c: Candidate)
    ensures !(RanksBefore(a, b) && RanksBefore(b, a)) && !RanksBefore(a, a)
    ensures RanksBefore(a, b) && RanksBefore(b, c) ==> RanksBefore(a, c)
  {
    Trichotomy(a.name, b.name);
    Trichotomy(a.identity, b.identity);
    Trichotomy(a.name, a.name);
    Trichotomy(a.identity, a.identity);
    if Less(a.name, b.name) && Less(b.name, c.name) { Transitive(a.name, b.name, c.name); }
    if Less(a.identity, b.identity) && Less(b.identity, c.identity) { Transitive(a.identity, b.identity, c.identity); }
  }

  lemma FrontRanked(s: seq<Candidate>, c: Candidate)
    requires InRankOrder(s) && s != []
    ensures InRankOrder(s[..|s| - 1])
    ensures c in s[..|s| - 1] ==> RanksBefore(c, s[|s| - 1])
  {
  }

  /** A stable insertion by name keeps the identity order of equal names. */
  lemma {:induction false} InsertRanked(s: seq<Candidate>, x: Candidate)
    requires InRankOrder(s) && forall c :: c in s ==> Less(c.identity, x.identity)
    ensures InRankOrder(Insert(ByName, s, x))
  {
    if s != [] {
      hide InRankOrder;
      var front, last := s[..|s| - 1], s[|s| - 1];
      assert s == front + [last];
      if Above(ByName, last, x) {
        var r := Insert(ByName, front, x);
        var top := r[|r| - 1];
        FrontRanked(s, top);
        InsertRanked(front, x);
        InsertMembers(ByName, front, x);
        AppendRanked(r, last);
      } else {
        Trichotomy(last.name, x.name);
        AppendRanked(s, x);
      }
    }
  }

  lemma AppendRanked(s: seq<Candidate>, x: Candidate)
    requires InRankOrder(s) && s != [] && RanksBefore(s[|s| - 1], x)
    ensures InRankOrder(s + [x])
  {
    forall i | 0 <= i < |s| ensures RanksBefore(s[i], x) {
      RankIsStrict(s[i], s[|s| - 1], x);
    }
  }

  lemma EmptyRanked()
    ensures InRankOrder([])
  {
  }

  lemma {:induction false} SortRanks(s: seq<Candidate>)
    requires IdentitiesIncrease(s)
    ensures InRankOrder(StableSort(ByName, s))
    ensures forall c :: c in StableSort(ByName, s) <==> c in s
  {
    hide Insert, InRankOrder;
    if s == [] {
      EmptyRanked();
    } else {
      var front, last := s[..|s| - 1], s[|s| - 1];
      assert s == front + [last];
      SortRanks(front);
      forall c | c in front ensures Less(c.identity, last.identity) {
        var i :| 0 <= i < |front| && front[i] == c;
        assert Less(s[i].identity, s[|front|].identity);
      }
      InsertRanked(StableSort(ByName, front), last);
      InsertMembers(ByName, StableSort(ByName, front), last);
    }
  }

  lemma {:induction false} RetainKeepsUsable(s: seq<Candidate>, limits: Limits, c: Candidate)
    ensures c in Retain(s, limits) <==> c in s && Usable(c, limits)
  {
    if s != [] {
      RetainKeepsUsable(s[..|s| - 1], limits, c);
      assert s == s[..|s| - 1] + [s[|s| - 1]];
    }
  }

  /**
   * Normalization is exactly this ranking: in strict (name, identity) order, one candidate for every identity
   * that has a usable one, namely its least-named usable candidate, the earliest of equal names.
   */
  lemma RankedIsBestPerIdentity(input: seq<Candidate>, limits: Limits)
    ensures InRankOrder(Ranked(input, limits))
    ensures forall c :: c in Ranked(input, limits) <==> Best(Retain(input, limits), c.identity) == Some(c)
    ensures forall c :: c in Ranked(input, limits) ==> c in input && Usable(c, limits)
  {
    var usable := Retain(input, limits);
    var sorted := StableSort(ByIdentityThenName, usable);
    var firsts := DedupByIdentity(sorted);
    SortIsSorted(ByIdentityThenName, usable);
    DedupKeepsFirsts(sorted);
    SortRanks(firsts);
    forall c: Candidate ensures c in Ranked(input, limits) <==> Best(usable, c.identity) == Some(c) {
      FirstOfSortIsBest(usable, c.identity);
    }
    forall c | c in Ranked(input, limits) ensures c in input && Usable(c, limits) {
      BestIsLeast(usable, c.identity);
      RetainKeepsUsable(input, limits, c);
    }
  }

  /** The candidate at `at` is the one kept for its identity: no sound one has a smaller name, nor the same name earlier. */
  predicate Chosen(input: seq<Candidate>, limits: Limits, at: nat)
    requires at < |input|
  {
    && Sound(input[at], limits)
    && forall o :: 0 <= o < |input| && input[o].identity == input[at].identity && Sound(input[o], limits) ==>
         Less(input[at].name, input[o].name) || (input[at].name == input[o].name && at <= o)
  }

  /** A later candidate takes the place of the chosen one only with a smaller name. */
  lemma StillChosen(front: seq<Candidate>, last: Candidate, limits: Limits, at: nat)
    requires at < |front| && Chosen(front, limits, at)
    requires Sound(last, limits) && last.identity == front[at].identity ==> !Less(last.name, front[at].name)
    ensures Chosen(front + [last], limits, at)
  {
    hide Sound;
    var all := front + [last];
    assert all[at] == front[at];
    Trichotomy(last.name, front[at].name);
    forall o | 0 <= o < |all| && all[o].identity == all[at].identity && Sound(all[o], limits)
      ensures Less(all[at].name, all[o].name) || (all[at].name == all[o].name && at <= o)
    {
      assert o < |front| ==> all[o] == front[o];
    }
  }

  lemma NewlyChosen(front: seq<Candidate>, last: Candidate, limits: Limits)
    requires Sound(last, limits)
    requires var b := Best(Retain(front, limits), last.identity); b.None? || Less(last.name, b.value.name)
    ensures Chosen(front + [last], limits, |front|)
  {
    hide Usable, Sound, Retain, Best;
    var usable, all := Retain(front, limits), front + [last];
    BestIsLeast(usable, last.identity);
    forall o | 0 <= o < |front| && all[o].identity == last.identity && Sound(all[o], limits) ensures Less(last.name, all[o].name) {
      UsableIffSound(front[o], limits);
      assert front[o] in front;
      RetainKeepsUsable(front, limits, front[o]);
      assert Best(usable, last.identity).Some?;
      var b := Best(usable, last.identity).value;
      if b.name != front[o].name { Transitive(last.name, b.name, front[o].name); }
    }
  }

  lemma {:induction false} BestIsChosen(input: seq<Candidate>, limits: Limits, identity: string) returns (at: nat)
    requires Best(Retain(input, limits), identity).Some?
    ensures at < |input| && input[at] == Best(Retain(input, limits), identity).value && input[at].identity == identity
    ensures Chosen(input, limits, at)
  {
    hide Usable, Sound, Less, Chosen;
    var front, last := input[..|input| - 1], input[|input| - 1];
    var usable := Retain(front, limits);
    assert input == front + [last];
    UsableIffSound(last, limits);
    assert Retain(input, limits) == usable + if Sound(last, limits) then [last] else [];
    assert (usable + [last])[..|usable|] == usable && usable + [] == usable;
    if Sound(last, limits) && last.identity == identity && (Best(usable, identity).None? || Less(last.name, Best(usable, identity).value.name)) {
      at := |front|;
      NewlyChosen(front, last, limits);
    } else {
      at := BestIsChosen(front, limits, identity);
      StillChosen(front, last, limits, at);
    }
  }

  /** Who is kept, on the input alone: exactly the chosen candidate of every identity that has a sound one. */
  lemma RankedIffChosen(input: seq<Candidate>, limits: Limits, c: Candidate)
    ensures c in Ranked(input, limits) <==> exists at: nat :: at < |input| && input[at] == c && Chosen(input, limits, at)
  {
    hide Usable, Sound, Ranked, Retain, Best;
    RankedIsBestPerIdentity(input, limits);
    var usable := Retain(input, limits);
    if Best(usable, c.identity).Some? {
      var b := BestIsChosen(input, limits, c.identity);
      if exists at: nat :: at < |input| && input[at] == c && Chosen(input, limits, at) {
        var at: nat :| at < |input| && input[at] == c && Chosen(input, limits, at);
        Trichotomy(input[at].name, input[b].name);
        assert at == b;
      }
    } else if exists at: nat :: at < |input| && input[at] == c && Chosen(input, limits, at) {
      var at: nat :| at < |input| && input[at] == c && Chosen(input, limits, at);
      UsableIffSound(c, limits);
      RetainKeepsUsable(input, limits, c);
      BestIsLeast(usable, c.identity);
      assert c in usable;
    }
  }

  lemma {:induction false} RankingUnique(a: seq<Candidate>, b: seq<Candidate>)
    requires InRankOrder(a) && InRankOrder(b) && forall c :: c in a <==> c in b
    ensures a == b
  {
    if b != [] { assert b[0] in a; }
    if a != [] {
      assert a[0] in b;
      var x, y := a[|a| - 1], b[|b| - 1];
      LastIsLast(a, y);
      LastIsLast(b, x);
      RankIsStrict(x, y, x);
      var a', b' := a[..|a| - 1], b[..|b| - 1];
      forall c: Candidate ensures c in a' <==> c in b' {
        FrontOf(a, c);
        FrontOf(b, c);
      }
      RankingUnique(a', b');
      assert a == a' + [x] && b == b' + [y];
    }
  }

  lemma LastIsLast(s: seq<Candidate>, c: Candidate)
    requires InRankOrder(s) && c in s
    ensures c == s[|s| - 1] || RanksBefore(c, s[|s| - 1])
  {
  }

  lemma FrontOf(s: seq<Candidate>, c: Candidate)
    requires InRankOrder(s) && s != []
    ensures c in s[..|s| - 1] <==> c in s && c != s[|s| - 1]
  {
    var last := s[|s| - 1];
    RankIsStrict(last, last, last);
    assert s == s[..|s| - 1] + [last];
  }

  predicate Tied(a: Candidate, b: Candidate) {
    a.identity == b.identity && a.name == b.name
  }

  /** `c` is usable and no usable candidate of its identity has a smaller name. */
  ghost predicate LeastNamed(c: Candidate, input: seq<Candidate>, limits: Limits) {
    && c in input && Usable(c, limits)
    && forall o :: o in input && Usable(o, limits) && o.identity == c.identity ==> AtMost(c.name, o.name)
  }

  /** No identity has two different candidates at its least name. Ties above the least name do no harm. */
  ghost predicate NoLeastTies(input: seq<Candidate>, limits: Limits) {
    forall a, b :: LeastNamed(a, input, limits) && LeastNamed(b, input, limits) && Tied(a, b) ==> a == b
  }

  lemma BestIsLeastNamed(input: seq<Candidate>, limits: Limits, identity: string)
    requires Best(Retain(input, limits), identity).Some?
    ensures LeastNamed(Best(Retain(input, limits), identity).value, input, limits)
    ensures Best(Retain(input, limits), identity).value.identity == identity
  {
    hide Retain, Best, Usable;
    BestIsLeast(Retain(input, limits), identity);
    forall c: Candidate ensures c in Retain(input, limits) <==> c in input && Usable(c, limits) {
      RetainKeepsUsable(input, limits, c);
    }
  }

  lemma LeastNamedAgree(a: Candidate, b: Candidate, input: seq<Candidate>, limits: Limits)
    requires NoLeastTies(input, limits) && LeastNamed(a, input, limits) && LeastNamed(b, input, limits) && a.identity == b.identity
    ensures a == b
  {
    Trichotomy(a.name, b.name);
  }

  lemma BestAgrees(a: seq<Candidate>, b: seq<Candidate>, limits: Limits, identity: string)
    requires NoLeastTies(a, limits) && forall c :: c in a <==> c in b
    ensures Best(Retain(a, limits), identity) == Best(Retain(b, limits), identity)
  {
    hide Retain, Best, Usable, NoLeastTies;
    var x, y := Retain(a, limits), Retain(b, limits);
    forall c: Candidate ensures c in x <==> c in y {
      RetainKeepsUsable(a, limits, c);
      RetainKeepsUsable(b, limits, c);
    }
    BestIsLeast(x, identity);
    BestIsLeast(y, identity);
    assert Best(y, identity).Some? ==> Best(y, identity).value in x;
    if Best(x, identity).Some? {
      assert Best(x, identity).value in y;
      BestIsLeastNamed(a, limits, identity);
      BestIsLeastNamed(b, limits, identity);
      LeastNamedAgree(Best(x, identity).value, Best(y, identity).value, a, limits);
    }
  }

  lemma RankedAgrees(a: seq<Candidate>, b: seq<Candidate>, limits: Limits)
    requires NoLeastTies(a, limits) && multiset(a) == multiset(b)
    ensures Ranked(a, limits) == Ranked(b, limits)
  {
    forall c: Candidate ensures c in a <==> c in b {
      assert c in a <==> c in multiset(a);
      assert c in b <==> c in multiset(b);
    }
    RankedIsBestPerIdentity(a, limits);
    RankedIsBestPerIdentity(b, limits);
    forall c: Candidate ensures c in Ranked(a, limits) <==> c in Ranked(b, limits) {
      BestAgrees(a, b, limits, c.identity);
    }
    RankingUnique(Ranked(a, limits), Ranked(b, limits));
  }

  lemma {:induction false} RetainFront(c: Candidate, rest: seq<Candidate>, limits: Limits)
    requires Usable(c, limits)
    ensures Retain([c] + rest, limits) == [c] + Retain(rest, limits)
  {
    var s := [c] + rest;
    if rest == [] {
      assert s[..0] == [];
    } else {
      RetainFront(c, rest[..|rest| - 1], limits);
      assert s[..|s| - 1] == [c] + rest[..|rest| - 1];
    }
  }

  /** A candidate at its identity's least name is chosen when the platform lists it first. */
  lemma ListedFirst(input: seq<Candidate>, limits: Limits, c: Candidate) returns (b: seq<Candidate>)
    requires LeastNamed(c, input, limits)
    ensures multiset(b) == multiset(input) && Best(Retain(b, limits), c.identity) == Some(c)
  {
    hide Retain, Best, Usable, Trim;
    var i :| 0 <= i < |input| && input[i] == c;
    var rest := input[..i] + input[i + 1..];
    b := [c] + rest;
    assert input == input[..i] + [c] + input[i + 1..];
    assert multiset(b) == multiset(input);
    RetainFront(c, rest, limits);
    var usable := Retain(b, limits);
    BestIsLeast(usable, c.identity);
    assert usable[0] == c;
    var at := BestIsEarliest(usable, c.identity);
    var best := usable[at];
    RetainKeepsUsable(b, limits, best);
    assert best in multiset(b);
    assert best in input;
    Trichotomy(c.name, best.name);
  }

  /** The order in which the platform lists candidates is immaterial if and only if no identity's least name is contested. */
  lemma OrderIndependentIff(input: seq<Candidate>, limits: Limits)
    ensures (forall b :: multiset(b) == multiset(input) ==> Ranked(b, limits) == Ranked(input, limits)) <==> NoLeastTies(input, limits)
  {
    if NoLeastTies(input, limits) {
      forall b | multiset(b) == multiset(input) ensures Ranked(b, limits) == Ranked(input, limits) {
        RankedAgrees(input, b, limits);
      }
    } else {
      var x, y :| LeastNamed(x, input, limits) && LeastNamed(y, input, limits) && Tied(x, y) && x != y;
      var p := ListedFirst(input, limits, x);
      var q := ListedFirst(input, limits, y);
      RankedIsBestPerIdentity(p, limits);
      RankedIsBestPerIdentity(q, limits);
      assert x in Ranked(p, limits) && x !in Ranked(q, limits);
    }
  }

  /** A tie at its smallest: of two usable candidates alike in identity and name, the first listed is kept. */
  lemma TiesGoToTheFirst(a: Candidate, b: Candidate, limits: Limits)
    requires Usable(a, limits) && Usable(b, limits) && Tied(a, b)
    ensures Ranked([a, b], limits) == [a]
  {
    assert [a, b][..1] == [a] && [a][..0] == [];
    assert Retain([a], limits) == [a] && Retain([a, b], limits) == [a, b];
    assert Best([a], a.identity) == Some(a);
    Trichotomy(a.name, b.name);
    assert Best([a, b], a.identity) == Some(a);
    RankedIsBestPerIdentity([a, b], limits);
    var r := Ranked([a, b], limits);
    forall c: Candidate ensures c in r <==> c in [a] {
      BestIsLeast([a, b], c.identity);
    }
    RankingUnique(r, [a]);
  }

  /** Convert native candidates into deterministic, bounded records. */
  method NormalizeWithLimits(input: seq<Candidate>, limits: Limits) returns (drives: seq<DriveMetrics>)
    ensures AllFit(Take(Ranked(input, limits), limits.maxEntries))
    ensures drives == Metrics(Take(Ranked(input, limits), limits.maxEntries))
    ensures var ranked := Ranked(input, limits);
            && |drives| == (if |ranked| <= limits.maxEntries then |ranked| else limits.maxEntries)
            && forall i :: 0 <= i < |drives| ==>
                 drives[i] == DriveMetrics(ranked[i].name, ranked[i].total - ranked[i].free, ranked[i].total, Some(ranked[i].available))
  {
    RankedIsBestPerIdentity(input, limits);
    var candidates := Retain(input, limits);
    candidates := StableSort(ByIdentityThenName, candidates);
    candidates := DedupByIdentity(candidates);
    candidates := StableSort(ByName, candidates);
    if |candidates| > limits.maxEntries {
      candidates := candidates[..limits.maxEntries];
    }
    forall i | 0 <= i < |candidates| ensures candidates[i].free <= candidates[i].total {
      assert candidates[i] in Ranked(input, limits);
    }
    drives := Metrics(candidates);
  }

  // ---- the wire validator's drive section ----

  datatype Kind =
    | TooManyDrives(maxEntries: nat)
    | EmptyDriveName
    | DriveNameTooLong(maxBytes: nat)
    | ZeroNotAllowed
    | UsedExceedsTotal
    | AvailableExceedsTotal
    | DuplicateDriveName

  datatype Part = NamePart | TotalPart | UsedPart | AvailablePart

  datatype Place = WholeList | Entry(index: nat, part: Part)

  datatype Violation = Violation(kind: Kind, place: Place)

  function Report(log: seq<Violation>, bad: bool, kind: Kind, place: Place): (out: seq<Violation>)
    ensures bad || out == log
  {
    if bad then log + [Violation(kind, place)] else log
  }

  function CheckDrive(log: seq<Violation>, index: nat, d: DriveMetrics): seq<Violation> {
    var log := Report(log, Trim(d.name) == "" || '\0' in d.name, EmptyDriveName, Entry(index, NamePart));
    var log := Report(log, Utf8.Len(d.name) > MAX_DRIVE_NAME_BYTES, DriveNameTooLong(MAX_DRIVE_NAME_BYTES), Entry(index, NamePart));
    var log := Report(log, d.totalBytes == 0 && (d.usedBytes > 0 || (d.availableBytes.Some? && d.availableBytes.value > 0)),
                      ZeroNotAllowed, Entry(index, TotalPart));
    var log := Report(log, d.usedBytes > d.totalBytes, UsedExceedsTotal, Entry(index, UsedPart));
    Report(log, d.availableBytes.Some? && d.availableBytes.value > d.totalBytes, AvailableExceedsTotal, Entry(index, AvailablePart))
  }

  predicate NameTaken(drives: seq<DriveMetrics>, name: string) {
    exists i :: 0 <= i < |drives| && Trim(drives[i].name) == Trim(name)
  }

  function TrimmedNames(drives: seq<DriveMetrics>): set<string> {
    set d | d in drives :: Trim(d.name)
  }

  lemma NamesTaken(drives: seq<DriveMetrics>, name: string)
    ensures Trim(name) in TrimmedNames(drives) <==> NameTaken(drives, name)
  {
  }

  lemma NamesGrow(drives: seq<DriveMetrics>, d: DriveMetrics)
    ensures TrimmedNames(drives + [d]) == TrimmedNames(drives) + {Trim(d.name)}
  {
    assert forall x :: x in drives + [d] <==> x in drives || x == d;
  }

  function DrivesChecked(drives: seq<DriveMetrics>, log: seq<Violation>): seq<Violation> {
    if drives == [] then log
    else
      var front, d := drives[..|drives| - 1], drives[|drives| - 1];
      Report(CheckDrive(DrivesChecked(front, log), |front|, d), NameTaken(front, d.name), DuplicateDriveName, Entry(|front|, NamePart))
  }

  function DriveViolations(drives: seq<DriveMetrics>): seq<Violation> {
    DrivesChecked(drives, Report([], |drives| > MAX_DRIVE_ENTRIES, TooManyDrives(MAX_DRIVE_ENTRIES), WholeList))
  }

  method ValidateDrives(drives: seq<DriveMetrics>) returns (violations: seq<Violation>)
    ensures violations == DriveViolations(drives)
  {
    hide CheckDrive, Trim, NameTaken;
    violations := [];
    if |drives| > MAX_DRIVE_ENTRIES {
      violations := violations + [Violation(TooManyDrives(MAX_DRIVE_ENTRIES), WholeList)];
    }
    ghost var start := violations;
    var names: set<string> := {};
    for index := 0 to |drives|
      invariant names == TrimmedNames(drives[..index])
      invariant violations == DrivesChecked(drives[..index], start)
    {
      var drive := drives[index];
      assert drives[..index + 1][..index] == drives[..index];
      assert drives[..index + 1] == drives[..index] + [drive];
      NamesGrow(drives[..index], drive);
      NamesTaken(drives[..index], drive.name);
      violations := CheckDrive(violations, index, drive);
      if Trim(drive.name) in names {
        violations := violations + [Violation(DuplicateDriveName, Entry(index, NamePart))];
      }
      names := names + {Trim(drive.name)};
    }
    assert drives[..|drives|] == drives;
  }

  /** A record the normalizer could have produced under the default limits. */
  predicate WireReady(d: DriveMetrics) {
    && Trim(d.name) != "" && '\0' !in d.name && Utf8.Len(d.name) <= MAX_DRIVE_NAME_BYTES
    && d.totalBytes > 0 && d.usedBytes <= d.totalBytes
    && (d.availableBytes.Some? ==> d.availableBytes.value <= d.totalBytes)
  }

  ghost predicate TrimmedNamesDistinct(drives: seq<DriveMetrics>) {
    forall i, j :: 0 <= i < j < |drives| ==> Trim(drives[i].name) != Trim(drives[j].name)
  }

  lemma {:induction false} ReadyRecordsPass(drives: seq<DriveMetrics>)
    requires forall i :: 0 <= i < |drives| ==> WireReady(drives[i])
    ensures forall v :: v in DrivesChecked(drives, []) ==> v.kind == DuplicateDriveName
    ensures DrivesChecked(drives, []) == [] <==> TrimmedNamesDistinct(drives)
  {
    if drives != [] {
      var front, d := drives[..|drives| - 1], drives[|drives| - 1];
      ReadyRecordsPass(front);
      assert drives == front + [d];
      var log := DrivesChecked(front, []);
      assert CheckDrive(log, |front|, d) == log;
      if TrimmedNamesDistinct(drives) {
        forall i | 0 <= i < |front| ensures Trim(front[i].name) != Trim(d.name) {
          assert Trim(drives[i].name) != Trim(drives[|front|].name);
        }
      }
    }
  }

  /**
   * Under the default limits the validator's drive section can object to a normalized list only for trimmed
   * names that coincide, and does so exactly when two of them do.
   */
  lemma NormalizedPassesValidator(input: seq<Candidate>, drives: seq<DriveMetrics>)
    requires AllFit(Take(Ranked(input, DefaultLimits), DefaultLimits.maxEntries))
    requires drives == Metrics(Take(Ranked(input, DefaultLimits), DefaultLimits.maxEntries))
    ensures forall v :: v in DriveViolations(drives) ==> v.kind == DuplicateDriveName
    ensures DriveViolations(drives) == [] <==> TrimmedNamesDistinct(drives)
  {
    RankedIsBestPerIdentity(input, DefaultLimits);
    var taken := Take(Ranked(input, DefaultLimits), DefaultLimits.maxEntries);
    forall i | 0 <= i < |drives| ensures WireReady(drives[i]) {
      assert taken[i] in Ranked(input, DefaultLimits);
      assert Usable(taken[i], DefaultLimits);
    }
    ReadyRecordsPass(drives);
  }
}
