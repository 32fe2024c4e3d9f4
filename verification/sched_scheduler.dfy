/** The scheduler: it finds a process by searching its queues and moves it by its control block. */
module ProcessScheduler {
  import opened Core
  import opened ProcessControl
  import opened SchedulerState
  import opened SchedulerOps
  import RoundRobin

  method FindIn(queue: seq<nat>, pid: nat) returns (found: bool)
    ensures found <==> pid in queue
  {
    for i := 0 to |queue|
      invariant pid !in queue[..i]
    {
      if queue[i] == pid {
        return true;
      }
    }
    return false;
  }

  method RemoveFrom(queue: seq<nat>, pid: nat) returns (r: seq<nat>)
    ensures r == Without(queue, pid)
  {
    r := [];
    for i := 0 to |queue|
      invariant r == Without(queue[..i], pid)
    {
      assert queue[..i + 1][..i] == queue[..i];
      if queue[i] != pid {
        r := r + [queue[i]];
      }
    }
    assert queue[..|queue|] == queue;
  }

  method RemoveFromAll(ready: seq<seq<nat>>, pid: nat) returns (r: seq<seq<nat>>)
    ensures r == WithoutAll(ready, pid)
  {
    r := ready;
    for l := 0 to |ready|
      invariant |r| == |ready|
      invariant forall k | 0 <= k < l :: r[k] == Without(ready[k], pid)
      invariant forall k | l <= k < |ready| :: r[k] == ready[k]
    {
      var q := RemoveFrom(r[l], pid);
      r := r[l := q];
    }
  }

  /** The lane in which a process is ready, the first if there were several. */
  method FindReadyLane(ready: seq<seq<nat>>, pid: nat) returns (l: Option<nat>)
    ensures l.None? ==> forall k | 0 <= k < |ready| :: pid !in ready[k]
    ensures l.Some? ==> l.value < |ready| && pid in ready[l.value]
  {
    for k := 0 to |ready|
      invariant forall j | 0 <= j < k :: pid !in ready[j]
    {
      var found := FindIn(ready[k], pid);
      if found {
        return Some(k);
      }
    }
    return None;
  }

  method FindRunningLane(running: seq<Option<nat>>, pid: nat) returns (l: Option<nat>)
    ensures l.None? ==> forall k | 0 <= k < |running| :: running[k] != Some(pid)
    ensures l.Some? ==> l.value < |running| && running[l.value] == Some(pid)
  {
    for k := 0 to |running|
      invariant forall j | 0 <= j < k :: running[j] != Some(pid)
    {
      if running[k] == Some(pid) {
        return Some(k);
      }
    }
    return None;
  }

  method FindVictim(ready: seq<seq<nat>>, thief: nat) returns (victim: Option<nat>)
    ensures victim == Victim(ready, thief)
  {
    victim := None;
    var size := 0;
    for l := 0 to |ready|
      invariant victim == Victim(ready[..l], thief)
      invariant size == if victim.Some? then |ready[victim.value]| else 0
    {
      assert ready[..l + 1][..l] == ready[..l];
      if l == thief {
        continue;
      }
      if |ready[l]| > size {
        victim, size := Some(l), |ready[l]|;
      }
    }
    assert ready[..|ready|] == ready;
  }

  /** What the searches find is what the state of the process says. */
  lemma SearchesAgree(s: Queues, pid: nat)
    requires Placed(s)
    ensures (exists l :: 0 <= l < |s.ready| && pid in s.ready[l]) <==> pid in s.table && s.table[pid].state == Ready
    ensures (exists l :: 0 <= l < |s.running| && s.running[l] == Some(pid)) <==>
            pid in s.table && s.table[pid].state == Running
    ensures forall l | 0 <= l < |s.running| && s.running[l] == Some(pid) :: pid in s.lane && s.lane[pid] == l
    ensures pid in s.blocked <==> pid in s.table && s.table[pid].state == Blocked
    ensures pid in s.table ==> HasPlace(s, pid)
  {
    ExactlyOnePlace(s, pid);
  }

  /** The control blocks as values. */
  ghost function TableOf(processes: map<nat, Pcb>): (table: map<nat, Process>)
    reads processes.Values
    ensures table.Keys == processes.Keys
  {
    map pid | pid in processes :: processes[pid].Value()
  }

  lemma TableAt(processes: map<nat, Pcb>, pid: nat)
    requires pid in processes
    ensures TableOf(processes)[pid] == processes[pid].Value()
  {
  }

  lemma TableWith(processes: map<nat, Pcb>, pid: nat, pcb: Pcb)
    requires Identified(processes) && pcb.id == pid
    ensures TableOf(processes[pid := pcb]) == TableOf(processes)[pid := pcb.Value()]
    ensures Identified(processes[pid := pcb])
  {
  }

  lemma TableWithout(processes: map<nat, Pcb>, pid: nat)
    requires Identified(processes)
    ensures TableOf(processes - {pid}) == TableOf(processes) - {pid} && Identified(processes - {pid})
  {
  }

  ghost predicate Identified(processes: map<nat, Pcb>) {
    forall pid | pid in processes :: processes[pid].id == pid
  }

  class Scheduler {
    const timeSlice: pos
    var processes: map<nat, Pcb>
    var processLane: map<nat, nat>
    var readyByLane: seq<seq<nat>>
    var runningByLane: seq<Option<nat>>
    var blocked: seq<nat>

    ghost function Table(): map<nat, Process>
      reads this`processes, processes.Values
    {
      TableOf(processes)
    }

    ghost function State(): Queues
      reads this, processes.Values
    {
      Queues(readyByLane, runningByLane, blocked, processLane, Table())
    }

    /** Each process is known by the id in its control block. */
    ghost predicate Wired()
      reads this`processes
    {
      Identified(processes)
    }

    ghost predicate Valid()
      reads this, processes.Values
    {
      Wired() && Placed(State())
    }

    constructor (timeSlice: nat)
      ensures Valid() && processes == map[] && |readyByLane| == 1
      ensures this.timeSlice == Max(1, timeSlice)
    {
      this.timeSlice := if timeSlice == 0 then 1 else timeSlice;
      processes, processLane, readyByLane, runningByLane, blocked := map[], map[], [[]], [None], [];
    }

    /** A transition of one control block; no other is touched. */
    method Transit(pid: nat, to: ProcessState, now: Tick) returns (ok: bool)
      requires Wired() && pid in processes
      modifies processes[pid]
      ensures ok <==> IsValidTransition(old(Table())[pid].state, to)
      ensures Table() == if ok then old(Table())[pid := Moved(old(Table())[pid], to, now)] else old(Table())
    {
      ok := processes[pid].SetState(to, now);
    }

    /** Reads the control blocks of a ready lane. */
    method TakeSnapshots(queue: seq<nat>) returns (r: seq<RoundRobin.Snapshot>)
      requires forall pid | pid in queue :: pid in processes
      ensures r == Snapshots(queue, Table())
    {
      r := [];
      for i := 0 to |queue|
        invariant |r| == i && forall j | 0 <= j < i :: r[j] == SnapshotOf(Table(), queue[j])
      {
        r := r + [RoundRobin.Snapshot(queue[i], processes[queue[i]].timing.lastChange)];
      }
    }

    /** The control block is unknown or the one registered for its id. */
    ghost predicate Registers(pcb: Pcb)
      reads this`processes
    {
      pcb.id in processes ==> processes[pcb.id] == pcb
    }

    /**
     Any process may be enqueued; `EnqueueKeepsPlacedIff` says when the queues stay in order. A
     second control block for a known id changes nothing.
     */
    method EnqueueToLane(pcb: Pcb, laneIndex: nat, now: Tick) returns (r: Result<()>)
      requires Valid()
      requires !Registers(pcb) && processes[pcb.id].state == Blocked ==> pcb.state in {Ready, Running, Terminated}
      modifies this, pcb
      ensures Wired()
      ensures old(Registers(pcb)) ==>
                && (State(), r) == Enqueue(old(State()), pcb.id, old(pcb.Value()), laneIndex, now)
                && processes == if laneIndex < |old(readyByLane)| && pcb.id != INVALID_PID
                                then old(processes)[pcb.id := pcb] else old(processes)
      ensures !old(Registers(pcb)) ==>
                && State() == old(State()) && processes == old(processes) && pcb.Value() == old(pcb.Value())
                && r == if laneIndex >= |readyByLane| then Failure(InvalidArgument)
                        else if old(State()).table[pcb.id].state == Blocked then Failure(InvalidState)
                        else Success(())
    {
      hide Placed, TableOf, Identified, Join;
      var pid := pcb.id;
      if laneIndex >= |readyByLane| {
        return Failure(InvalidArgument);
      }
      SearchesAgree(State(), pid);
      if pid == INVALID_PID {
        return Failure(InvalidPid);
      }
      if pid !in processes {
        TableWith(processes, pid, pcb);
        processes := processes[pid := pcb];
      } else {
        TableAt(processes, pid);
        assert processes[pid := processes[pid]] == processes;
        assert Table()[pid := Table()[pid]] == Table();
      }
      var found := FindReadyLane(readyByLane, pid);
      if found.Some? {
        return Success(());
      }
      found := FindRunningLane(runningByLane, pid);
      if found.Some? {
        return Success(());
      }
      if pcb.state == Running {
        return Failure(InvalidState);
      }
      if processes[pid] != pcb {
        RefuseReady(pcb, now);
        return Failure(InvalidState);
      }
      var ok := JoinLane(laneIndex, pid, now);
      if !ok {
        return Failure(InvalidState);
      }
      return Success(());
    }

    /** A control block that is not registered and cannot become ready stays as it is. */
    method RefuseReady(pcb: Pcb, now: Tick)
      requires Wired() && !IsValidTransition(pcb.state, Ready)
      modifies pcb
      ensures pcb.Value() == old(pcb.Value()) && Table() == old(Table())
    {
      var ok := pcb.SetState(Ready, now);
      if ok {
        assert false;
      }
    }

    /** A process that can become ready goes to the end of a lane. */
    method JoinLane(l: nat, pid: nat, now: Tick) returns (ok: bool)
      requires Wired() && pid in processes && l < |readyByLane|
      modifies this`readyByLane, this`processLane, processes[pid]
      ensures ok <==> IsValidTransition(old(Table())[pid].state, Ready)
      ensures State() == if ok then Join(old(State()), l, pid, now) else old(State())
    {
      hide TableOf, Identified, Moved;
      ok := Transit(pid, Ready, now);
      if ok {
        readyByLane := readyByLane[l := readyByLane[l] + [pid]];
        processLane := processLane[pid := l];
      }
    }

    method Forget(pid: nat)
      requires Wired()
      modifies this`processLane, this`processes
      ensures Wired() && processes == old(processes) - {pid} && processLane == old(processLane) - {pid}
      ensures Table() == old(Table()) - {pid}
    {
      TableWithout(processes, pid);
      processLane := processLane - {pid};
      processes := processes - {pid};
    }

    /** Forgets the process, wherever it is. */
    method Dequeue(pid: nat) returns (r: Result<()>)
      requires Valid()
      modifies this
      ensures Valid() && (State(), r) == SchedulerOps.Dequeue(old(State()), pid)
      ensures processes == old(processes) - {pid}
    {
      hide Placed, TableOf, Identified, Without, WithoutAll;
      DropKeepsPlaced(State(), pid);
      if pid !in processes {
        return Failure(NotFound);
      }
      var running := runningByLane;
      for l := 0 to |running|
        invariant |running| == |runningByLane|
        invariant forall k | 0 <= k < l :: running[k] == Vacated(runningByLane, pid)[k]
        invariant forall k | l <= k < |running| :: running[k] == runningByLane[k]
      {
        if running[l] == Some(pid) {
          running := running[l := None];
        }
      }
      assert running == Vacated(runningByLane, pid);
      runningByLane := running;
      readyByLane := RemoveFromAll(readyByLane, pid);
      blocked := RemoveFrom(blocked, pid);
      Forget(pid);
      return Success(());
    }

    /** The Round Robin choice of a lane; no transition it makes is ever refused. */
    method SelectNextForLane(laneIndex: nat, now: Tick) returns (r: Result<nat>)
      requires Valid()
      modifies this, processes.Values
      ensures Valid() && (State(), r) == Choose(old(State()), laneIndex, timeSlice, now)
      ensures processes == old(processes)
    {
      hide Placed, TableOf, Identified, Moved, Without, Start, RoundRobin.SelectNext;
      ghost var s := State();
      ChooseKeepsPlaced(s, laneIndex, timeSlice, now);
      PlacedLanes(s);
      if laneIndex >= |readyByLane| {
        return Failure(InvalidArgument);
      }
      if readyByLane[laneIndex] == [] && runningByLane[laneIndex].Some? {
        return Success(runningByLane[laneIndex].value);
      }
      if readyByLane[laneIndex] == [] {
        return Failure(NotFound);
      }
      PickIsReady(s, laneIndex);
      var snapshots := TakeSnapshots(readyByLane[laneIndex]);
      var candidate := RoundRobin.SelectNext(snapshots);
      ReadyIsKnown(s, laneIndex, candidate);
      if candidate == INVALID_PID {
        assert false;
      }
      var found := FindIn(readyByLane[laneIndex], candidate);
      if !found {
        assert false;
      }
      if runningByLane[laneIndex].Some? {
        var running := runningByLane[laneIndex].value;
        TableAt(processes, running);
        var snapshot := RoundRobin.Snapshot(running, processes[running].timing.lastChange);
        if !RoundRobin.ShouldPreempt(snapshot, now, timeSlice) {
          return Success(running);
        }
        PutBack(laneIndex, now);
      }
      PutOn(laneIndex, candidate, now);
      return Success(candidate);
    }

    /** The running process of a lane returns to its queue. */
    method PutBack(l: nat, now: Tick)
      requires Valid() && l < |readyByLane| && runningByLane[l].Some?
      modifies this, processes.Values
      ensures Valid() && State() == Preempt(old(State()), l, now)
      ensures processes == old(processes)
    {
      hide Placed, TableOf, Identified, Moved;
      PreemptKeepsPlaced(State(), l, now);
      PlacedLanes(State());
      var pid := runningByLane[l].value;
      var ok := Transit(pid, Ready, now);
      if !ok {
        assert false;
      }
      readyByLane := readyByLane[l := readyByLane[l] + [pid]];
      processLane := processLane[pid := l];
      runningByLane := runningByLane[l := None];
    }

    /** A ready process takes the free slot of its lane. */
    method PutOn(l: nat, pid: nat, now: Tick)
      requires Valid() && l < |readyByLane| && runningByLane[l].None? && pid in readyByLane[l]
      modifies this, processes.Values
      ensures Valid() && State() == Start(old(State()), l, pid, now)
      ensures processes == old(processes)
    {
      hide Placed, TableOf, Identified, Moved, Without;
      StartKeepsPlaced(State(), l, pid, now);
      PlacedLanes(State());
      ReadyIsKnown(State(), l, pid);
      var queue := RemoveFrom(readyByLane[l], pid);
      readyByLane := readyByLane[l := queue];
      var ok := Transit(pid, Running, now);
      if !ok {
        assert false;
      }
      runningByLane := runningByLane[l := Some(pid)];
      processLane := processLane[pid := l];
    }

    /** Takes the front of the longest other lane and then chooses. */
    method StealNextForLane(thief: nat, now: Tick) returns (r: Result<nat>)
      requires Valid()
      modifies this, processes.Values
      ensures Valid() && (State(), r) == Steal(old(State()), thief, timeSlice, now)
      ensures processes == old(processes)
    {
      hide Placed, TableOf, Identified, Choose;
      PlacedLanes(State());
      if thief >= |readyByLane| {
        return Failure(InvalidArgument);
      }
      var victim := FindVictim(readyByLane, thief);
      if victim.None? {
        return Failure(NotFound);
      }
      var v := victim.value;
      ShiftKeepsPlaced(State(), v, thief);
      var stolen := readyByLane[v][0];
      readyByLane := readyByLane[v := readyByLane[v][1..]];
      readyByLane := readyByLane[thief := readyByLane[thief] + [stolen]];
      processLane := processLane[stolen := thief];
      assert State() == Shift(old(State()), v, thief);
      r := SelectNextForLane(thief, now);
    }

    /** The running process of a lane is blocked. */
    method ParkLane(l: nat, now: Tick)
      requires Valid() && l < |readyByLane| && runningByLane[l].Some?
      modifies this, processes.Values
      ensures Valid() && State() == Park(old(State()), l, now)
      ensures processes == old(processes)
    {
      hide Placed, TableOf, Identified, Moved;
      ParkKeepsPlaced(State(), l, now);
      PlacedLanes(State());
      var pid := runningByLane[l].value;
      var ok := Transit(pid, Blocked, now);
      if !ok {
        assert false;
      }
      blocked := blocked + [pid];
      runningByLane := runningByLane[l := None];
    }

    /** Blocks the running process of the first busy lane. */
    method BlockRunning(now: Tick) returns (r: Result<()>)
      requires Valid()
      modifies this, processes.Values
      ensures Valid() && (State(), r) == SchedulerOps.BlockRunning(old(State()), now)
      ensures processes == old(processes)
    {
      hide Placed, TableOf, Identified, Park;
      PlacedLanes(State());
      var found := None;
      for l := 0 to |runningByLane|
        invariant found.None? && forall k | 0 <= k < l :: runningByLane[k].None?
      {
        if runningByLane[l].Some? {
          found := Some(l);
          break;
        }
      }
      if found.None? {
        return Failure(NotFound);
      }
      ParkLane(found.value, now);
      return Success(());
    }

    /** Succeeds exactly for a running process. */
    method BlockProcess(pid: nat, now: Tick) returns (r: Result<()>)
      requires Valid()
      modifies this, processes.Values
      ensures Valid() && (State(), r) == SchedulerOps.BlockProcess(old(State()), pid, now)
      ensures processes == old(processes)
    {
      hide Placed, TableOf, Identified, Park;
      PlacedLanes(State());
      SearchesAgree(State(), pid);
      if pid !in processes {
        return Failure(NotFound);
      }
      var running := FindRunningLane(runningByLane, pid);
      if running.Some? {
        ParkLane(running.value, now);
        return Success(());
      }
      var ready := FindReadyLane(readyByLane, pid);
      if ready.Some? {
        var ok := Transit(pid, Blocked, now);
        if ok {
          assert false;
        }
        return Failure(InvalidState);
      }
      return Failure(NotFound);
    }

    /** Succeeds exactly for a blocked process, which returns to its lane. */
    method Unblock(pid: nat, now: Tick) returns (r: Result<()>)
      requires Valid()
      modifies this, processes.Values
      ensures Valid() && (State(), r) == SchedulerOps.Unblock(old(State()), pid, now)
      ensures processes == old(processes)
    {
      hide Placed, TableOf, Identified, Moved, Without;
      PlacedLanes(State());
      SearchesAgree(State(), pid);
      UnblockKeepsPlaced(State(), pid, now);
      var found := FindIn(blocked, pid);
      if !found {
        return Failure(NotFound);
      }
      var ok := Transit(pid, Ready, now);
      if !ok {
        assert false;
      }
      blocked := RemoveFrom(blocked, pid);
      var l := if pid in processLane then processLane[pid] else 0;
      if l >= |readyByLane| {
        assert false;
      }
      readyByLane := readyByLane[l := readyByLane[l] + [pid]];
      processLane := processLane[pid := l];
      return Success(());
    }

    /** Ends a running process; any other one leaves its queue and is then refused. */
    method Terminate(pid: nat, now: Tick) returns (r: Result<()>)
      requires Valid()
      modifies this, processes.Values
      ensures Wired() && (State(), r) == SchedulerOps.Terminate(old(State()), pid)
      ensures r.Success? ==>
                && pid in old(processes) && processes == old(processes) - {pid}
                && old(processes)[pid].Value() == Ended(old(Table())[pid], now)
                && old(processes)[pid].state == Terminated
      ensures r.Failure? ==> processes == old(processes)
    {
      hide Placed, TableOf, Identified, Moved, Without, WithoutAll, Drop;
      PlacedLanes(State());
      SearchesAgree(State(), pid);
      if pid !in processes {
        return Failure(NotFound);
      }
      var running := FindRunningLane(runningByLane, pid);
      if running.Some? {
        EndRunning(running.value, now);
        return Success(());
      }
      readyByLane := RemoveFromAll(readyByLane, pid);
      blocked := RemoveFrom(blocked, pid);
      var ok := Transit(pid, Terminated, now);
      if ok {
        assert false;
      }
      return Failure(InvalidState);
    }

    /** The running process of a lane ends. */
    method EndRunning(l: nat, now: Tick)
      requires Valid() && l < |readyByLane| && runningByLane[l].Some?
      modifies this, processes.Values
      ensures Valid() && State() == Drop(old(State()), old(runningByLane)[l].value)
      ensures var pid := old(runningByLane)[l].value;
              && pid in old(processes) && processes == old(processes) - {pid}
              && old(processes)[pid].Value() == Ended(old(Table())[pid], now)
              && old(processes)[pid].state == Terminated
    {
      hide Placed, TableOf, Identified, Moved, Without, WithoutAll, Drop;
      PlacedLanes(State());
      var pid := runningByLane[l].value;
      RunningIsDropped(State(), l, pid);
      DropKeepsPlaced(State(), pid);
      runningByLane := runningByLane[l := None];
      var ok := Transit(pid, Terminated, now);
      if !ok {
        assert false;
      }
      MoveThenForget(old(Table()), pid, Table()[pid]);
      TableAt(processes, pid);
      Forget(pid);
    }

    /** Lanes can be laid out only while no process is known. */
    method ConfigureLanes(laneCount: nat) returns (r: Result<()>)
      requires Valid()
      modifies this
      ensures Valid() && processes == old(processes)
      ensures r == if laneCount == 0 then Failure(InvalidArgument)
                   else if processes != map[] then Failure(InvalidState)
                   else Success(())
      ensures r.Failure? ==> State() == old(State())
      ensures r.Success? ==> State() == Queues(seq(laneCount, _ => []), seq(laneCount, _ => None), [], map[], map[])
    {
      if laneCount == 0 {
        return Failure(InvalidArgument);
      }
      if processes != map[] {
        return Failure(InvalidState);
      }
      assert Table() == map[];
      NothingBlocked(State());
      readyByLane := seq(laneCount, _ => []);
      runningByLane := seq(laneCount, _ => None);
      processLane := map[];
      return Success(());
    }
  }

  lemma PlacedLanes(s: Queues)
    requires Placed(s)
    ensures |s.running| == |s.ready| > 0
    ensures forall l | 0 <= l < |s.running| && s.running[l].Some? ::
              s.running[l].value in s.table && s.table[s.running[l].value].state == Running
    ensures forall l, pid | 0 <= l < |s.ready| && pid in s.ready[l] :: pid in s.table
  {
  }

  lemma ReadyIsKnown(s: Queues, l: nat, pid: nat)
    requires Placed(s) && l < |s.ready| && pid in s.ready[l]
    ensures pid in s.table && s.table[pid].state == Ready && pid != INVALID_PID
  {
    assert pid in s.table && HasPlace(s, pid);
  }

  lemma NothingBlocked(s: Queues)
    requires Placed(s) && s.table == map[]
    ensures s.blocked == []
  {
    SomeMember(s.blocked);
  }

  lemma MoveThenForget(table: map<nat, Process>, pid: nat, p: Process)
    ensures table[pid := p] - {pid} == table - {pid}
  {
  }

  /** A running process holds one slot and is in no queue. */
  lemma RunningIsDropped(s: Queues, l: nat, pid: nat)
    requires Placed(s) && l < |s.running| && s.running[l] == Some(pid)
    ensures Drop(s, pid) == Queues(s.ready, s.running[l := None], s.blocked, s.lane - {pid}, s.table - {pid})
  {
    hide Without;
    ExactlyOnePlace(s, pid);
  }
}
