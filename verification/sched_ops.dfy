/** What each scheduler operation does to the queues, whatever the policy picks. */
module SchedulerOps {
  import opened Core
  import opened ProcessControl
  import opened SchedulerState
  import opened RoundRobin

  // ---------------------------------------------------------------- operations

  /** Admission to lane `l`; the control block is registered before anything else is checked. */
  function Enqueue(s: Queues, pid: nat, p: Process, l: nat, now: Tick): (Queues, Result<()>)
    requires pid in s.table ==> s.table[pid] == p
  {
    if l >= |s.ready| then (s, Failure(InvalidArgument))
    else if pid == INVALID_PID then (s, Failure(InvalidPid))
    else if pid in s.table && (p.state == Ready || p.state == Running) then (s, Success(()))
    else
      var known := s.(table := s.table[pid := p]);
      if IsValidTransition(p.state, Ready) && p.state != Running then (Join(known, l, pid, now), Success(()))
      else (known, Failure(InvalidState))
  }

  function Dequeue(s: Queues, pid: nat): (Queues, Result<()>) {
    if pid in s.table then (Drop(s, pid), Success(())) else (s, Failure(NotFound))
  }

  /** The choice in lane `l`, given what the policy picks and whether it preempts. */
  function Select(s: Queues, l: nat, pick: nat, preempt: bool, now: Tick): (Queues, Result<nat>)
    requires Placed(s) && (l < |s.ready| && s.ready[l] != [] ==> pick in s.ready[l])
  {
    if l >= |s.ready| then (s, Failure(InvalidArgument))
    else if s.ready[l] == [] then
      (s, if s.running[l].Some? then Success(s.running[l].value) else Failure(NotFound))
    else if s.running[l].Some? && !preempt then (s, Success(s.running[l].value))
    else
      var s1 := if s.running[l].Some? then Preempt(s, l, now) else s;
      assert pick in s.table;
      (Start(s1, l, pick, now), Success(pick))
  }

  // ---------------------------------------------------------------- the Round Robin choice

  function Last(table: map<nat, Process>, pid: nat): Tick {
    if pid in table then table[pid].timing.lastChange else 0
  }

  function SnapshotOf(table: map<nat, Process>, pid: nat): Snapshot {
    Snapshot(pid, Last(table, pid))
  }

  function Snapshots(queue: seq<nat>, table: map<nat, Process>): (r: seq<Snapshot>)
    ensures |r| == |queue| && forall i | 0 <= i < |queue| :: r[i] == SnapshotOf(table, queue[i])
  {
    seq(|queue|, i requires 0 <= i < |queue| => SnapshotOf(table, queue[i]))
  }

  ghost function Pick(s: Queues, l: nat): nat
    requires l < |s.ready|
  {
    SelectNext(Snapshots(s.ready[l], s.table))
  }

  ghost predicate SliceOver(s: Queues, l: nat, slice: pos, now: Tick)
    requires l < |s.running|
  {
    s.running[l].Some? && ShouldPreempt(SnapshotOf(s.table, s.running[l].value), now, slice)
  }

  /** The policy picks a process of the lane that precedes all others. */
  lemma PickIsReady(s: Queues, l: nat)
    requires l < |s.ready| && s.ready[l] != []
    ensures Pick(s, l) in s.ready[l]
    ensures forall q | q in s.ready[l] && q != Pick(s, l) ::
              Earlier(SnapshotOf(s.table, Pick(s, l)), SnapshotOf(s.table, q))
  {
    var snapshots := Snapshots(s.ready[l], s.table);
    var i :| 0 <= i < |snapshots| && snapshots[i].pid == Pick(s, l) &&
             forall j | 0 <= j < |snapshots| :: !Earlier(snapshots[j], snapshots[i]);
    forall q | q in s.ready[l] && q != Pick(s, l)
      ensures Earlier(SnapshotOf(s.table, Pick(s, l)), SnapshotOf(s.table, q))
    {
      var j :| 0 <= j < |s.ready[l]| && s.ready[l][j] == q;
      assert !Earlier(snapshots[j], snapshots[i]);
    }
  }

  ghost function Choose(s: Queues, l: nat, slice: pos, now: Tick): (Queues, Result<nat>)
    requires Placed(s)
  {
    if l < |s.ready| && s.ready[l] != [] then
      PickIsReady(s, l);
      Select(s, l, Pick(s, l), SliceOver(s, l, slice, now), now)
    else Select(s, l, 0, false, now)
  }

  /** The front of the longest other lane moves to the end of the thief's, which then chooses. */
  ghost function Steal(s: Queues, thief: nat, slice: pos, now: Tick): (Queues, Result<nat>)
    requires Placed(s)
  {
    if thief >= |s.ready| then (s, Failure(InvalidArgument))
    else
      var v := Victim(s.ready, thief);
      if v.None? then (s, Failure(NotFound))
      else
        ShiftKeepsPlaced(s, v.value, thief);
        Choose(Shift(s, v.value, thief), thief, slice, now)
  }

  /** The first of the longest other lanes, if any of them holds a process. */
  function Victim(ready: seq<seq<nat>>, thief: nat): (v: Option<nat>)
    ensures v.Some? ==>
              && v.value < |ready| && v.value != thief && ready[v.value] != []
              && (forall l | 0 <= l < |ready| && l != thief :: |ready[l]| <= |ready[v.value]|)
              && (forall l | 0 <= l < v.value && l != thief :: |ready[l]| < |ready[v.value]|)
    ensures v.None? ==> forall l | 0 <= l < |ready| && l != thief :: ready[l] == []
  {
    if ready == [] then None
    else
      var n := |ready| - 1;
      var v := Victim(ready[..n], thief);
      assert forall l | 0 <= l < n :: ready[..n][l] == ready[l];
      if n != thief && |ready[n]| > (if v.Some? then |ready[v.value]| else 0) then Some(n) else v
  }

  function FirstRunning(running: seq<Option<nat>>): (l: Option<nat>)
    ensures l.Some? ==> l.value < |running| && running[l.value].Some? && forall k | 0 <= k < l.value :: running[k].None?
    ensures l.None? ==> forall k | 0 <= k < |running| :: running[k].None?
  {
    if running == [] then None
    else
      var n := |running| - 1;
      var l := FirstRunning(running[..n]);
      assert forall k | 0 <= k < n :: running[..n][k] == running[k];
      if l.Some? then l else if running[n].Some? then Some(n) else None
  }

  function BlockRunning(s: Queues, now: Tick): (Queues, Result<()>)
    requires Placed(s)
  {
    var l := FirstRunning(s.running);
    if l.Some? then (Park(s, l.value, now), Success(())) else (s, Failure(NotFound))
  }

  function BlockProcess(s: Queues, pid: nat, now: Tick): (Queues, Result<()>)
    requires Placed(s)
  {
    if pid !in s.table then (s, Failure(NotFound))
    else
      assert HasPlace(s, pid);
      match s.table[pid].state
      case Running => (Park(s, s.lane[pid], now), Success(()))
      case Ready => (s, Failure(InvalidState))
      case _ => (s, Failure(NotFound))
  }

  function Unblock(s: Queues, pid: nat, now: Tick): (Queues, Result<()>)
    requires Placed(s)
  {
    if pid in s.table && s.table[pid].state == Blocked then
      assert HasPlace(s, pid);
      (Wake(s, pid, now), Success(()))
    else (s, Failure(NotFound))
  }

  /** A process that is not running is taken off every queue before the transition is refused. */
  function Terminate(s: Queues, pid: nat): (Queues, Result<()>) {
    if pid !in s.table then (s, Failure(NotFound))
    else if s.table[pid].state == Running then (Drop(s, pid), Success(()))
    else (s.(ready := WithoutAll(s.ready, pid), blocked := Without(s.blocked, pid)), Failure(InvalidState))
  }

  // ---------------------------------------------------------------- who keeps the invariant

  /** Exactly a blocked process, or an unknown one that cannot become ready, breaks the queues by an enqueue. */
  lemma EnqueueKeepsPlacedIff(s: Queues, pid: nat, p: Process, l: nat, now: Tick)
    requires Placed(s) && (pid in s.table ==> s.table[pid] == p)
    ensures pid in s.table ==> HasPlace(s, pid)
    ensures Placed(Enqueue(s, pid, p, l, now).0) <==>
            || l >= |s.ready| || pid == INVALID_PID
            || (if pid in s.table then p.state != Blocked else p.state in {New, Blocked, Suspended})
  {
    hide Moved, Without;
    if l < |s.ready| && pid != INVALID_PID {
      if pid in s.table {
        assert HasPlace(s, pid);
        if p.state == Blocked {
          var t := Enqueue(s, pid, p, l, now).0;
          assert pid in t.blocked && t.table[pid].state == Ready;
          assert !BlockedAgree(t.blocked, t.table);
        }
      } else if p.state in {New, Blocked, Suspended} {
        JoinKeepsPlaced(s, l, pid, p, now);
      } else {
        var t := Enqueue(s, pid, p, l, now).0;
        assert pid in t.table && pid !in t.lane;
      }
    }
  }

  /** Exactly a ready or blocked process breaks the queues by being terminated directly. */
  lemma TerminateKeepsPlacedIff(s: Queues, pid: nat)
    requires Placed(s)
    ensures Placed(Terminate(s, pid).0) <==> pid !in s.table || s.table[pid].state == Running
  {
    hide Moved, Without;
    if pid in s.table {
      DropKeepsPlaced(s, pid);
      assert HasPlace(s, pid);
      if s.table[pid].state != Running {
        var t := Terminate(s, pid).0;
        assert pid in t.table;
        assert !HasPlace(t, pid);
      }
    }
  }

  lemma SelectKeepsPlaced(s: Queues, l: nat, pick: nat, preempt: bool, now: Tick)
    requires Placed(s) && (l < |s.ready| && s.ready[l] != [] ==> pick in s.ready[l])
    ensures var (t, r) := Select(s, l, pick, preempt, now);
            && Placed(t) && t.table.Keys == s.table.Keys && |t.ready| == |s.ready|
            && (r.Success? ==> r.value in t.table && t.table[r.value].state == Running && l < |t.ready| &&
                               t.running[l] == Some(r.value))
            && (r.Failure? ==> t == s && r.error == if l < |s.ready| then NotFound else InvalidArgument)
  {
    hide Moved, Without;
    if l < |s.ready| && s.ready[l] != [] && (s.running[l].None? || preempt) {
      if s.running[l].Some? {
        PreemptKeepsPlaced(s, l, now);
        StartKeepsPlaced(Preempt(s, l, now), l, pick, now);
      } else {
        StartKeepsPlaced(s, l, pick, now);
      }
    }
  }

  lemma BlockKeepsPlaced(s: Queues, pid: nat, now: Tick)
    requires Placed(s)
    ensures Placed(BlockProcess(s, pid, now).0) && BlockProcess(s, pid, now).0.table.Keys == s.table.Keys
    ensures pid in s.table && s.table[pid].state == Running ==> BlockProcess(s, pid, now).1.Success?
  {
    hide ReadyAgree, RunningAgree, BlockedAgree;
    if pid in s.table && s.table[pid].state == Running {
      assert HasPlace(s, pid);
      ParkKeepsPlaced(s, s.lane[pid], now);
    }
  }

  lemma BlockRunningKeepsPlaced(s: Queues, now: Tick)
    requires Placed(s)
    ensures Placed(BlockRunning(s, now).0)
  {
    hide ReadyAgree, BlockedAgree;
    if FirstRunning(s.running).Some? {
      ParkKeepsPlaced(s, FirstRunning(s.running).value, now);
    }
  }

  lemma UnblockKeepsPlaced(s: Queues, pid: nat, now: Tick)
    requires Placed(s)
    ensures Placed(Unblock(s, pid, now).0) && Unblock(s, pid, now).0.table.Keys == s.table.Keys
    ensures |Unblock(s, pid, now).0.ready| == |s.ready|
  {
    hide ReadyAgree, RunningAgree, BlockedAgree;
    if pid in s.table && s.table[pid].state == Blocked {
      WakeKeepsPlaced(s, pid, now);
    }
  }

  lemma ChooseKeepsPlaced(s: Queues, l: nat, slice: pos, now: Tick)
    requires Placed(s)
    ensures var (t, r) := Choose(s, l, slice, now);
            && Placed(t) && t.table.Keys == s.table.Keys && |t.ready| == |s.ready|
            && (r.Success? ==> r.value in t.table && t.table[r.value].state == Running)
            && (r.Failure? ==> t == s && r.error == if l < |s.ready| then NotFound else InvalidArgument)
  {
    hide ReadyAgree, RunningAgree, BlockedAgree, HasPlace;
    if l < |s.ready| && s.ready[l] != [] {
      PickIsReady(s, l);
      SelectKeepsPlaced(s, l, Pick(s, l), SliceOver(s, l, slice, now), now);
    } else {
      SelectKeepsPlaced(s, l, 0, false, now);
    }
  }

  lemma StealKeepsPlaced(s: Queues, thief: nat, slice: pos, now: Tick)
    requires Placed(s)
    ensures var (t, r) := Steal(s, thief, slice, now);
            && Placed(t) && t.table.Keys == s.table.Keys && |t.ready| == |s.ready|
            && (r.Success? ==> r.value in t.table && t.table[r.value].state == Running)
            && (r.Failure? ==> t == s && r.error == if thief < |s.ready| then NotFound else InvalidArgument)
  {
    hide Placed;
    if thief < |s.ready| && Victim(s.ready, thief).Some? {
      var v := Victim(s.ready, thief).value;
      ShiftKeepsPlaced(s, v, thief);
      ChooseKeepsPlaced(Shift(s, v, thief), thief, slice, now);
      ChooseFromSome(Shift(s, v, thief), thief, slice, now);
    }
  }

  /** With a process ready in the lane, the choice succeeds. */
  lemma ChooseFromSome(s: Queues, l: nat, slice: pos, now: Tick)
    requires Placed(s) && l < |s.ready| && s.ready[l] != []
    ensures Choose(s, l, slice, now).1.Success?
  {
  }

  // ---------------------------------------------------------------- runs that break the queues

  const IDLE := Queues([[]], [None], [], map[], map[])

  lemma IdleIsPlaced()
    ensures Placed(IDLE)
  {
  }

  /** A process that was just admitted is ready; terminating it directly leaves it known and nowhere. */
  lemma TerminatingReadyBreaks()
    ensures var s := Enqueue(IDLE, 1, Created(0), 0, 0).0;
            && Placed(s) && s.table[1].state == Ready && s.ready == [[1]]
            && Terminate(s, 1).1 == Failure(InvalidState) && !Placed(Terminate(s, 1).0)
  {
    hide Placed, Moved;
    IdleIsPlaced();
    EnqueueKeepsPlacedIff(IDLE, 1, Created(0), 0, 0);
    var s := Enqueue(IDLE, 1, Created(0), 0, 0).0;
    assert s.ready[0] == IDLE.ready[0] + [1] == [1];
    assert s.ready == [[1]];
    TerminateKeepsPlacedIff(s, 1);
  }

  /** Admitted, chosen, blocked and enqueued again, a process is both ready and blocked. */
  lemma EnqueueingBlockedBreaks()
    ensures var s1 := Enqueue(IDLE, 1, Created(0), 0, 0).0;
            && Placed(s1) && 1 in s1.ready[0]
            && var s2 := Select(s1, 0, 1, false, 1).0;
               && Placed(s2)
               && var s3 := BlockProcess(s2, 1, 2).0;
                  && Placed(s3) && 1 in s3.table && s3.table[1].state == Blocked
                  && !Placed(Enqueue(s3, 1, s3.table[1], 0, 3).0)
  {
    hide Placed, Moved, Without;
    TerminatingReadyBreaks();
    var s1 := Enqueue(IDLE, 1, Created(0), 0, 0).0;
    assert 1 in s1.ready[0];
    SelectKeepsPlaced(s1, 0, 1, false, 1);
    var s2 := Select(s1, 0, 1, false, 1).0;
    assert s1.running == [None];
    assert s2.table[1].state == Running && s2.lane[1] == 0 && s2.running[0] == Some(1);
    BlockKeepsPlaced(s2, 1, 2);
    var s3 := BlockProcess(s2, 1, 2).0;
    assert s3.table[1].state == Blocked;
    EnqueueKeepsPlacedIff(s3, 1, s3.table[1], 0, 3);
  }
}
