/** What the drive section of the payload validator reports, stated on the drives alone. */
module DriveReport {
  import opened Basics
  import opened HostModel
  import opened Drives
  import Utf8

  predicate SharesName(drives: seq<DriveMetrics>, index: nat)
    requires index < |drives|
  {
    exists i :: 0 <= i < index && Trim(drives[i].name) == Trim(drives[index].name)
  }

  predicate NameDefect(d: DriveMetrics, kind: Kind) {
    match kind
    case EmptyDriveName => IsBlank(d.name) || exists i :: 0 <= i < |d.name| && d.name[i] as int == 0
    case DriveNameTooLong(max) => max == 512 && Utf8.Len(d.name) > 512
    case _ => false
  }

  predicate CapacityDefect(d: DriveMetrics, kind: Kind, part: Part) {
    match kind
    case ZeroNotAllowed => part == TotalPart && d.totalBytes == 0 && (d.usedBytes > 0 || (d.availableBytes.Some? && d.availableBytes.value > 0))
    case UsedExceedsTotal => part == UsedPart && d.usedBytes > d.totalBytes
    case AvailableExceedsTotal => part == AvailablePart && d.availableBytes.Some? && d.availableBytes.value > d.totalBytes
    case _ => false
  }

  predicate OwnDefect(d: DriveMetrics, index: nat, v: Violation) {
    && v.place.Entry? && v.place.index == index
    && ((v.place.part == NamePart && NameDefect(d, v.kind)) || CapacityDefect(d, v.kind, v.place.part))
  }

  predicate EntryDefect(drives: seq<DriveMetrics>, index: nat, v: Violation)
    requires index < |drives|
  {
    OwnDefect(drives[index], index, v) || (v == Violation(DuplicateDriveName, Entry(index, NamePart)) && SharesName(drives, index))
  }

  /** Everything that can be wrong with a list of drives, with the violation that names it. */
  ghost predicate Defect(drives: seq<DriveMetrics>, v: Violation) {
    || (v == Violation(TooManyDrives(32), WholeList) && |drives| > 32)
    || exists index: nat :: index < |drives| && EntryDefect(drives, index, v)
  }

  // ---- order ----

  datatype Position = Position(entry: nat, check: nat)

  predicate Earlier(a: Position, b: Position) {
    a.entry < b.entry || (a.entry == b.entry && a.check < b.check)
  }

  /** The list as a whole first, then entry by entry: name, length, total, used, available, repeated name. */
  function PositionOf(v: Violation): Position {
    if v.place.WholeList? then Position(0, 0)
    else
      Position(v.place.index + 1,
               match v.kind
               case EmptyDriveName => 0
               case DriveNameTooLong(_) => 1
               case ZeroNotAllowed => 2
               case UsedExceedsTotal => 3
               case AvailableExceedsTotal => 4
               case _ => 5)
  }

  /** `log` is in strictly increasing order of position, all of it earlier than `end`. */
  ghost predicate Before(log: seq<Violation>, end: Position) {
    && (forall a, b :: 0 <= a < b < |log| ==> Earlier(PositionOf(log[a]), PositionOf(log[b])))
    && forall a :: 0 <= a < |log| ==> Earlier(PositionOf(log[a]), end)
  }

  lemma Reported(log: seq<Violation>, bad: bool, kind: Kind, place: Place, next: Position)
    requires Before(log, PositionOf(Violation(kind, place))) && Earlier(PositionOf(Violation(kind, place)), next)
    ensures var out := Report(log, bad, kind, place);
            && Before(out, next)
            && forall v :: v in out <==> v in log || (bad && v == Violation(kind, place))
  {
    if bad {
      var out := Report(log, bad, kind, place);
      assert forall a :: 0 <= a < |log| ==> out[a] == log[a];
    }
  }

  lemma EntryReported(log: seq<Violation>, index: nat, d: DriveMetrics, out: seq<Violation>)
    requires Before(log, Position(index + 1, 0)) && out == CheckDrive(log, index, d)
    ensures Before(out, Position(index + 1, 5))
    ensures forall v :: v in out <==> v in log || OwnDefect(d, index, v)
  {
    hide Before, Report, Trim, IsBlank, Utf8.Len;
    TrimmedAway(d.name);
    assert '\0' in d.name <==> exists i :: 0 <= i < |d.name| && d.name[i] as int == 0;
    var empty, long := Trim(d.name) == "" || '\0' in d.name, Utf8.Len(d.name) > MAX_DRIVE_NAME_BYTES;
    var zero := d.totalBytes == 0 && (d.usedBytes > 0 || (d.availableBytes.Some? && d.availableBytes.value > 0));
    var name, total := Entry(index, NamePart), Entry(index, TotalPart);
    Reported(log, empty, EmptyDriveName, name, Position(index + 1, 1));
    var a := Report(log, empty, EmptyDriveName, name);
    Reported(a, long, DriveNameTooLong(MAX_DRIVE_NAME_BYTES), name, Position(index + 1, 2));
    var b := Report(a, long, DriveNameTooLong(MAX_DRIVE_NAME_BYTES), name);
    Reported(b, zero, ZeroNotAllowed, total, Position(index + 1, 3));
    var c := Report(b, zero, ZeroNotAllowed, total);
    Reported(c, d.usedBytes > d.totalBytes, UsedExceedsTotal, Entry(index, UsedPart), Position(index + 1, 4));
    var e := Report(c, d.usedBytes > d.totalBytes, UsedExceedsTotal, Entry(index, UsedPart));
    Reported(e, d.availableBytes.Some? && d.availableBytes.value > d.totalBytes, AvailableExceedsTotal,
             Entry(index, AvailablePart), Position(index + 1, 5));
  }

  ghost predicate EntriesDefect(drives: seq<DriveMetrics>, n: nat, v: Violation)
    requires n <= |drives|
  {
    exists index: nat :: index < n && EntryDefect(drives, index, v)
  }

  lemma {:induction false} EntriesReported(log: seq<Violation>, drives: seq<DriveMetrics>, n: nat, out: seq<Violation>)
    requires n <= |drives| && Before(log, Position(1, 0)) && out == DrivesChecked(drives[..n], log)
    ensures Before(out, Position(n + 1, 0))
    ensures forall v :: v in out <==> v in log || EntriesDefect(drives, n, v)
    decreases n
  {
    hide Before, Report, CheckDrive, OwnDefect, Trim;
    if n > 0 {
      var index, d := n - 1, drives[n - 1];
      var before := DrivesChecked(drives[..index], log);
      EntriesReported(log, drives, index, before);
      assert drives[..n][..index] == drives[..index];
      EntryReported(before, index, d, CheckDrive(before, index, d));
      Reported(CheckDrive(before, index, d), NameTaken(drives[..index], d.name), DuplicateDriveName, Entry(index, NamePart), Position(n + 1, 0));
      assert NameTaken(drives[..index], d.name) <==> SharesName(drives, index);
      forall v ensures EntriesDefect(drives, n, v) <==> EntriesDefect(drives, index, v) || EntryDefect(drives, index, v) {
      }
    }
  }

  lemma NothingReported()
    ensures Before([], Position(0, 0))
  {
  }

  /** Every defect of the list is reported once, in the order of the walk, and nothing else is. */
  lemma DriveReportIsExact(drives: seq<DriveMetrics>)
    ensures forall v :: v in DriveViolations(drives) <==> Defect(drives, v)
    ensures Before(DriveViolations(drives), Position(|drives| + 1, 0))
  {
    hide Before, Report, DrivesChecked, EntryDefect;
    NothingReported();
    Reported([], |drives| > MAX_DRIVE_ENTRIES, TooManyDrives(MAX_DRIVE_ENTRIES), WholeList, Position(1, 0));
    assert drives[..|drives|] == drives;
    EntriesReported(Report([], |drives| > MAX_DRIVE_ENTRIES, TooManyDrives(MAX_DRIVE_ENTRIES), WholeList), drives, |drives|, DriveViolations(drives));
  }
}
