/** The daemon whose history the client follows: one observer per scheduler lifetime. */
module CronRemote {
  import opened Basics
  import opened SchedulerWire

  datatype Remote = Remote(
    epoch: Epoch,
    limit: nat,
    histories: seq<JobHistory>,
    nextSequence: u64,
    revision: u64)

  function SaturatingIncrement(x: u64): u64 {
    if x == U64_MAX then x else x + 1
  }

  /** A new lifetime: empty rings, sequences from 1, revision 0. */
  function Start(epoch: Epoch, names: seq<string>, limit: nat): Remote {
    Remote(epoch, limit, seq(|names|, i requires 0 <= i < |names| => JobHistory(names[i], [])), 1, 0)
  }

  /** Record a finished occurrence of job `index`, whose sequence the observer assigns. */
  function RecordTerminal(r: Remote, index: nat, run: RunRecord): Remote {
    var next := r.(nextSequence := SaturatingIncrement(r.nextSequence));
    if r.limit == 0 then next.(revision := SaturatingIncrement(r.revision))
    else if index >= |r.histories| then next
    else
      var entry := r.histories[index];
      var ring := Newest(entry.records + [run.(sequence := r.nextSequence)], r.limit);
      next.(histories := r.histories[index := entry.(records := ring)], revision := SaturatingIncrement(r.revision))
  }
}
