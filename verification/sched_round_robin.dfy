/** The Round Robin policy: longest in its state first, and a time slice. */
module RoundRobin {
  import opened Core
  import opened ProcessControl

  datatype Snapshot = Snapshot(pid: nat, lastChange: Tick)

  predicate Earlier(a: Snapshot, b: Snapshot) {
    if a.lastChange != b.lastChange then a.lastChange < b.lastChange else a.pid < b.pid
  }

  /** The position of an entry that no other entry precedes. */
  function Earliest(queue: seq<Snapshot>): (i: nat)
    requires queue != []
    ensures i < |queue| && forall j | 0 <= j < |queue| :: !Earlier(queue[j], queue[i])
  {
    var n := |queue| - 1;
    if n == 0 then 0
    else
      var i := Earliest(queue[..n]);
      assert forall j | 0 <= j < n :: queue[..n][j] == queue[j];
      if Earlier(queue[n], queue[i]) then n else i
  }

  /** No process, or the one that has been ready for longest, the smaller id first. */
  function SelectNext(queue: seq<Snapshot>): (pid: nat)
    ensures queue == [] ==> pid == 0
    ensures queue != [] ==>
              exists i :: 0 <= i < |queue| && queue[i].pid == pid &&
                          forall j | 0 <= j < |queue| :: !Earlier(queue[j], queue[i])
  {
    if queue == [] then 0 else queue[Earliest(queue)].pid
  }

  /** The slice is used up, as far as a 64-bit clock can tell. */
  predicate ShouldPreempt(running: Snapshot, now: Tick, timeSlice: pos) {
    Minus(now, running.lastChange) >= timeSlice
  }
}
