/** Strict `MAJOR.MINOR.PATCH` versions and the update decision made from them. */
module Version {
  import opened Basics
  import Decimal

  // ---- parsing ----

  /** `str::split('.')`. */
  function Split(s: string): (parts: seq<string>)
    ensures parts != []
  {
    if s == "" then [""]
    else if s[0] == '.' then [""] + Split(s[1..])
    else
      var rest := Split(s[1..]);
      [[s[0]] + rest[0]] + rest[1..]
  }

  /** The checked accumulation of digits, left to right. */
  function ParseDigits(s: string): Option<u64> {
    if s == "" then Some(0)
    else
      var acc, c := ParseDigits(s[..|s| - 1]), s[|s| - 1];
      if acc.None? || !('0' <= c <= '9') then None
      else
        var next := acc.value * 10 + (c as int - 48);
        if next <= U64_MAX then Some(next) else None
  }

  /** `str::parse::<u64>`, which also takes one leading plus sign. */
  function ParseU64(s: string): Option<u64> {
    if s == "" || s == "+" then None
    else if s[0] == '+' then ParseDigits(s[1..])
    else ParseDigits(s)
  }

  datatype Triple = Triple(major: u64, minor: u64, patch: u64)

  predicate LeadingZero(part: string) {
    |part| > 1 && part[0] == '0'
  }

  function ParseStableVersion(input: string): Option<Triple> {
    if input == "" || '-' in input || '+' in input then None
    else
      var parts := Split(input);
      if |parts| != 3 then None
      else if LeadingZero(parts[0]) || LeadingZero(parts[1]) || LeadingZero(parts[2]) then None
      else
        var major, minor, patch := ParseU64(parts[0]), ParseU64(parts[1]), ParseU64(parts[2]);
        if major.None? || minor.None? || patch.None? then None
        else Some(Triple(major.value, minor.value, patch.value))
  }

  // ---- printing ----

  function Print(v: Triple): string {
    Decimal.Print(v.major) + ("." + (Decimal.Print(v.minor) + ("." + Decimal.Print(v.patch))))
  }

  predicate AllDigits(s: string) {
    forall i :: 0 <= i < |s| ==> '0' <= s[i] <= '9'
  }

  lemma {:induction false} ParsePrinted(n: u64)
    ensures ParseDigits(Decimal.Print(n)) == Some(n)
  {
    var s := Decimal.Print(n);
    if n < 10 {
      assert s[..0] == "";
    } else {
      ParsePrinted(n / 10);
      assert s[..|s| - 1] == Decimal.Print(n / 10);
    }
  }

  lemma OneDigit(c: char)
    requires '0' <= c <= '9'
    ensures AllDigits([c]) && Decimal.Print(c as int - 48) == [c]
  {
  }

  lemma OneMoreDigit(front: string, m: nat, c: char)
    requires front == Decimal.Print(m) && front[0] != '0' && AllDigits(front) && '0' <= c <= '9'
    ensures AllDigits(front + [c]) && Decimal.Print(10 * m + (c as int - 48)) == front + [c]
  {
    assert Decimal.Print(0)[0] == '0';
  }

  lemma {:induction false} ParsedIsPrinted(s: string)
    requires s != "" && !LeadingZero(s) && ParseDigits(s).Some?
    ensures AllDigits(s) && s == Decimal.Print(ParseDigits(s).value)
  {
    hide AllDigits, Decimal.Print;
    var front, c := s[..|s| - 1], s[|s| - 1];
    assert s == front + [c];
    if front == "" {
      assert ParseDigits("") == Some(0);
      OneDigit(c);
    } else {
      assert front[0] == s[0];
      ParsedIsPrinted(front);
      OneMoreDigit(front, ParseDigits(front).value, c);
    }
  }

  // ---- splitting ----

  lemma {:induction false} SplitAtDot(a: string, b: string)
    requires '.' !in a
    ensures Split(a + ("." + b)) == [a] + Split(b)
  {
    var s := a + ("." + b);
    if a == "" {
      assert s == "." + b && s[1..] == b;
    } else {
      SplitAtDot(a[1..], b);
      assert s[1..] == a[1..] + ("." + b);
      assert [a[0]] + a[1..] == a;
    }
  }

  lemma {:induction false} SplitWithoutDot(a: string)
    requires '.' !in a
    ensures Split(a) == [a]
  {
    if a != "" {
      SplitWithoutDot(a[1..]);
      assert [a[0]] + a[1..] == a;
    }
  }

  function Join(parts: seq<string>): string
    requires parts != []
  {
    if |parts| == 1 then parts[0] else parts[0] + ("." + Join(parts[1..]))
  }

  lemma {:induction false} JoinSplit(s: string)
    ensures Join(Split(s)) == s
  {
    if s != "" {
      var rest := Split(s[1..]);
      JoinSplit(s[1..]);
      assert s == [s[0]] + s[1..];
      if s[0] == '.' {
        assert ([""] + rest)[1..] == rest;
        assert "" + ("." + Join(rest)) == "." + Join(rest);
      } else {
        var parts := [[s[0]] + rest[0]] + rest[1..];
        if |rest| > 1 {
          assert parts[1..] == rest[1..];
          assert ([s[0]] + rest[0]) + ("." + Join(rest[1..])) == [s[0]] + (rest[0] + ("." + Join(rest[1..])));
        }
      }
    }
  }

  // ---- the accepted language ----

  lemma DigitsOnly(s: string)
    requires AllDigits(s)
    ensures '.' !in s && '-' !in s && '+' !in s
  {
  }

  lemma PrintedParts(v: Triple)
    ensures Split(Print(v)) == [Decimal.Print(v.major), Decimal.Print(v.minor), Decimal.Print(v.patch)]
    ensures '-' !in Print(v) && '+' !in Print(v)
  {
    hide Split;
    var a, b, c := Decimal.Print(v.major), Decimal.Print(v.minor), Decimal.Print(v.patch);
    DigitsOnly(a);
    DigitsOnly(b);
    DigitsOnly(c);
    SplitAtDot(a, b + ("." + c));
    SplitAtDot(b, c);
    SplitWithoutDot(c);
    assert [a] + ([b] + [c]) == [a, b, c];
  }

  lemma {:induction false} PrintHasNoLeadingZero(n: nat)
    ensures !LeadingZero(Decimal.Print(n))
    ensures n > 0 ==> Decimal.Print(n)[0] != '0'
  {
    if n >= 10 { PrintHasNoLeadingZero(n / 10); }
  }

  lemma PrintedPartParses(n: u64)
    ensures ParseU64(Decimal.Print(n)) == Some(n) && !LeadingZero(Decimal.Print(n))
  {
    ParsePrinted(n);
    PrintHasNoLeadingZero(n);
  }

  lemma ParsePrintedVersion(v: Triple)
    ensures ParseStableVersion(Print(v)) == Some(v)
  {
    PrintedParts(v);
    PrintedPartParses(v.major);
    PrintedPartParses(v.minor);
    PrintedPartParses(v.patch);
  }

  lemma PartIsPrinted(part: string)
    requires '+' !in part && !LeadingZero(part) && ParseU64(part).Some?
    ensures part == Decimal.Print(ParseU64(part).value)
  {
    ParsedIsPrinted(part);
  }

  lemma {:induction false} SplitKeepsChars(s: string, c: char)
    requires c !in s
    ensures forall i :: 0 <= i < |Split(s)| ==> c !in Split(s)[i]
  {
    if s != "" { SplitKeepsChars(s[1..], c); }
  }

  /**
   * The accepted strings are exactly the canonical decimal prints of three 64-bit numbers, and each parses to
   * the numbers it prints.
   */
  lemma AcceptsExactlyPrints(s: string, v: Triple)
    ensures ParseStableVersion(s) == Some(v) <==> s == Print(v)
  {
    ParsePrintedVersion(v);
    if ParseStableVersion(s) == Some(v) {
      var parts := Split(s);
      SplitKeepsChars(s, '+');
      PartIsPrinted(parts[0]);
      PartIsPrinted(parts[1]);
      PartIsPrinted(parts[2]);
      JoinSplit(s);
      var rest := parts[1..];
      assert rest[1..] == [parts[2]] && Join([parts[2]]) == parts[2];
      assert Join(rest) == parts[1] + ("." + parts[2]);
    }
  }

  // ---- comparing ----

  datatype Ordering = Lesser | Equal | Greater

  function CompareNumbers(a: u64, b: u64): Ordering {
    if a < b then Lesser else if a == b then Equal else Greater
  }

  /** Lexicographic, as tuples compare. */
  function CompareTriples(a: Triple, b: Triple): Ordering {
    if a.major != b.major then CompareNumbers(a.major, b.major)
    else if a.minor != b.minor then CompareNumbers(a.minor, b.minor)
    else CompareNumbers(a.patch, b.patch)
  }

  function CompareVersions(a: string, b: string): Option<Ordering> {
    var x, y := ParseStableVersion(a), ParseStableVersion(b);
    if x.None? || y.None? then None else Some(CompareTriples(x.value, y.value))
  }

  function IsUpdateAvailable(current: string, latest: string): Option<bool> {
    var o := CompareVersions(current, latest);
    if o.None? then None else Some(o.value == Lesser)
  }

  predicate Accepted(s: string) {
    ParseStableVersion(s).Some?
  }

  /** A total order on the accepted strings, in which only identical strings are equal. */
  lemma CompareIsTotalOrder(a: string, b: string, c: string)
    requires Accepted(a) && Accepted(b) && Accepted(c)
    ensures CompareVersions(a, b) == Some(Equal) <==> a == b
    ensures CompareVersions(a, b) == Some(Lesser) <==> CompareVersions(b, a) == Some(Greater)
    ensures CompareVersions(a, b) == Some(Lesser) && CompareVersions(b, c) == Some(Lesser) ==> CompareVersions(a, c) == Some(Lesser)
  {
    hide ParseStableVersion, Print;
    AcceptsExactlyPrints(a, ParseStableVersion(a).value);
    AcceptsExactlyPrints(b, ParseStableVersion(b).value);
  }

  // ---- the plan ----

  datatype Plan = InvalidVersion | AlreadyCurrent(version: string) | Available(current: string, latest: string)

  function ResolvePlan(current: string, latest: string): Plan {
    match CompareVersions(current, latest)
    case None => InvalidVersion
    case Some(o) => if o != Lesser then AlreadyCurrent(current) else Available(current, latest)
  }

  /** Numerically greater, component by component. */
  predicate Newer(a: Triple, b: Triple) {
    a.major > b.major || (a.major == b.major && (a.minor > b.minor || (a.minor == b.minor && a.patch > b.patch)))
  }

  /** `s` is the canonical print of some version. */
  ghost predicate IsVersion(s: string) {
    exists v :: s == Print(v)
  }

  ghost predicate NewerVersion(s: string, t: string) {
    exists v, w :: s == Print(v) && t == Print(w) && Newer(v, w)
  }

  lemma AcceptedIffVersion(s: string)
    ensures Accepted(s) <==> IsVersion(s)
    ensures Accepted(s) ==> s == Print(ParseStableVersion(s).value)
  {
    hide ParseStableVersion, Print;
    if Accepted(s) {
      AcceptsExactlyPrints(s, ParseStableVersion(s).value);
    }
    if IsVersion(s) {
      var v :| s == Print(v);
      AcceptsExactlyPrints(s, v);
    }
  }

  /**
   * The plan for any two strings: an update is offered exactly when both are versions and the latest is newer, and an
   * error is reported exactly when one of them is not a version.
   */
  lemma PlanIsExact(current: string, latest: string)
    ensures ResolvePlan(current, latest) == InvalidVersion <==> !IsVersion(current) || !IsVersion(latest)
    ensures ResolvePlan(current, latest) == Available(current, latest) <==> NewerVersion(latest, current)
    ensures ResolvePlan(current, latest) == AlreadyCurrent(current) <==>
              IsVersion(current) && IsVersion(latest) && !NewerVersion(latest, current)
    ensures IsUpdateAvailable(current, latest) ==
              if IsVersion(current) && IsVersion(latest) then Some(NewerVersion(latest, current)) else None
  {
    hide ParseStableVersion, Print, Newer;
    AcceptedIffVersion(current);
    AcceptedIffVersion(latest);
    if IsVersion(current) && IsVersion(latest) {
      var v, w := ParseStableVersion(current).value, ParseStableVersion(latest).value;
      AvailableIffNewer(v, w);
      if NewerVersion(latest, current) {
        var x, y :| latest == Print(x) && current == Print(y) && Newer(x, y);
        AcceptsExactlyPrints(latest, x);
        AcceptsExactlyPrints(current, y);
      }
    }
  }

  /** An update is offered only for a strictly greater version, and always for one; a downgrade never is. */
  lemma AvailableIffNewer(current: Triple, latest: Triple)
    ensures ResolvePlan(Print(current), Print(latest)) == Available(Print(current), Print(latest)) <==> Newer(latest, current)
    ensures ResolvePlan(Print(current), Print(latest)) == AlreadyCurrent(Print(current)) <==> !Newer(latest, current)
    ensures IsUpdateAvailable(Print(current), Print(latest)) == Some(Newer(latest, current))
  {
    ParsePrintedVersion(current);
    ParsePrintedVersion(latest);
  }
}
