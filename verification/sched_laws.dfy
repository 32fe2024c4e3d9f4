/** What each scheduler operation answers and does, told by where the processes are before and after. */
module SchedulerLaws {
  import opened Core
  import opened ProcessControl
  import opened SchedulerState
  import opened SchedulerOps
  import opened RoundRobin

  // ---------------------------------------------------------------- what stays

  /** Processes other than `pid` have kept control block, lane, place and order. */
  ghost predicate OthersKept(s: Queues, t: Queues, pid: nat) {
    && |t.ready| == |s.ready| && |t.running| == |s.running|
    && SameBut(pid, s.lane, s.table, t.lane, t.table)
    && (forall l | 0 <= l < |s.ready| :: Without(t.ready[l], pid) == Without(s.ready[l], pid))
    && (forall l | 0 <= l < |s.running| && t.running[l] != s.running[l] ::
          (s.running[l].Some? ==> s.running[l].value == pid) && (t.running[l].Some? ==> t.running[l].value == pid))
    && Without(t.blocked, pid) == Without(s.blocked, pid)
  }

  lemma WithoutStep(q: seq<nat>, y: nat, x: nat)
    ensures Without(q + [y], x) == if y == x then Without(q, x) else Without(q, x) + [y]
  {
    assert (q + [y])[..|q|] == q;
  }

  lemma WithoutTwice(q: seq<nat>, x: nat)
    ensures Without(Without(q, x), x) == Without(q, x)
  {
    assert x !in Without(q, x);
  }

  // ---------------------------------------------------------------- the choice

  /** A lane with a ready or a running process. */
  predicate HasWork(s: Queues, l: nat) {
    l < |s.ready| == |s.running| && (s.ready[l] != [] || s.running[l].Some?)
  }

  /** The process running in the lane has had its time. */
  predicate SliceUsed(s: Queues, l: nat, slice: pos, now: Tick)
    requires l < |s.running|
  {
    && s.running[l].Some? && s.running[l].value in s.table
    && Elapsed(s.table[s.running[l].value].timing.lastChange, now) >= slice
  }

  lemma SliceOverIff(s: Queues, l: nat, slice: pos, now: Tick)
    requires l < |s.running| && (s.running[l].Some? ==> s.running[l].value in s.table)
    ensures SliceOver(s, l, slice, now) <==> SliceUsed(s, l, slice, now)
  {
  }

  /** `a` has been in its state for longer than `b`, or as long with a smaller id. */
  predicate Before(table: map<nat, Process>, a: nat, b: nat) {
    && a in table && b in table
    && var x, y := table[a].timing.lastChange, table[b].timing.lastChange;
       x < y || (x == y && a < b)
  }

  /** The control block of `pid` notes its new state, and the time. */
  predicate BecomesIn(before: map<nat, Process>, after: map<nat, Process>, pid: nat, state: ProcessState, now: Tick) {
    && pid in before && pid in after
    && IsValidTransition(before[pid].state, state) && after[pid] == Moved(before[pid], state, now)
  }

  /** `pid` starts in lane `l`; whoever ran there goes to the end of the ready ones. */
  ghost predicate Switched(s: Queues, t: Queues, l: nat, pid: nat, now: Tick)
    requires l < |s.ready| == |s.running| == |t.ready| == |t.running|
  {
    && pid in s.ready[l] && (forall q | q in s.ready[l] && q != pid :: Before(s.table, pid, q))
    && t.running == s.running[l := Some(pid)] && t.blocked == s.blocked
    && t.ready == s.ready[l := Without(s.ready[l], pid) + (if s.running[l].Some? then [s.running[l].value] else [])]
    && t.lane == s.lane
    && BecomesIn(s.table, t.table, pid, Running, now)
    && (s.running[l].Some? ==> BecomesIn(s.table, t.table, s.running[l].value, Ready, now))
    && t.table.Keys == s.table.Keys
    && forall q | q in s.table && q != pid && s.running[l] != Some(q) :: t.table[q] == s.table[q]
  }

  /**
   A choice succeeds exactly in a lane with a ready or a running process. A running process goes on
   if nobody is ready or its slice is not used up; otherwise the ready process that precedes all
   others takes its place.
   */
  lemma ChoiceIs(s: Queues, l: nat, slice: pos, now: Tick)
    requires Placed(s)
    ensures var (t, r) := Choose(s, l, slice, now);
            && (r.Success? <==> HasWork(s, l))
            && (r.Failure? ==> t == s && r.error == if l < |s.ready| then NotFound else InvalidArgument)
            && (HasWork(s, l) ==>
                  if s.running[l].Some? && (s.ready[l] == [] || !SliceUsed(s, l, slice, now))
                  then t == s && r.value == s.running[l].value
                  else |t.ready| == |t.running| == |s.ready| && Switched(s, t, l, r.value, now))
  {
    hide ReadyAgree, BlockedAgree, Moved;
    if HasWork(s, l) && s.ready[l] != [] {
      SliceOverIff(s, l, slice, now);
      PickIsReady(s, l);
      if s.running[l].None? || SliceUsed(s, l, slice, now) {
        SwitchIs(s, l, Pick(s, l), now);
      }
    }
  }

  lemma SwitchIs(s: Queues, l: nat, pid: nat, now: Tick)
    requires Placed(s) && l < |s.ready| && pid in s.ready[l]
    requires forall q | q in s.ready[l] && q != pid :: Earlier(SnapshotOf(s.table, pid), SnapshotOf(s.table, q))
    ensures var (t, r) := Select(s, l, pid, true, now);
            r == Success(pid) && |t.ready| == |t.running| == |s.ready| && Switched(s, t, l, pid, now)
  {
    hide Preempt, Start, Switched, ReadyAgree, RunningAgree, BlockedAgree, HasPlace, Earlier;
    PlacesOf(s, l, pid);
    SwapIs(s, l, pid, now);
  }

  lemma SwapIs(s: Queues, l: nat, pid: nat, now: Tick)
    requires l < |s.ready| == |s.running| && pid in s.ready[l] && InPlace(s, l, pid, Ready)
    requires forall q | q in s.ready[l] :: q in s.table
    requires forall q | q in s.ready[l] && q != pid :: Earlier(SnapshotOf(s.table, pid), SnapshotOf(s.table, q))
    requires s.running[l].Some? ==> s.running[l].value != pid && InPlace(s, l, s.running[l].value, Running)
    ensures var s1 := if s.running[l].Some? then Preempt(s, l, now) else s;
            var t := Start(s1, l, pid, now);
            |t.ready| == |t.running| == |s.ready| && Switched(s, t, l, pid, now)
  {
    hide Moved, Without;
    assert s.lane[pid := l] == s.lane;
    if s.running[l].Some? {
      var q := s.running[l].value;
      WithoutStep(s.ready[l], q, pid);
      assert s.lane[q := l] == s.lane;
    } else {
      assert Without(s.ready[l], pid) + [] == Without(s.ready[l], pid);
    }
  }

  ghost predicate InPlace(s: Queues, l: nat, pid: nat, state: ProcessState) {
    pid in s.table && pid in s.lane && s.lane[pid] == l && s.table[pid].state == state
  }

  lemma PlacesOf(s: Queues, l: nat, pid: nat)
    requires Placed(s) && l < |s.ready| && pid in s.ready[l]
    ensures InPlace(s, l, pid, Ready) && forall q | q in s.ready[l] :: q in s.table
    ensures s.running[l].Some? ==> s.running[l].value != pid && InPlace(s, l, s.running[l].value, Running)
  {
  }

  // ---------------------------------------------------------------- moves of one process

  /** `pid`, whose control block was `p`, is ready at the end of lane `l`, and nobody else is concerned. */
  ghost predicate JoinedLane(s: Queues, t: Queues, l: nat, pid: nat, p: Process, now: Tick)
    requires l < |s.ready|
  {
    && OthersKept(s, t, pid)
    && t.ready == s.ready[l := s.ready[l] + [pid]] && t.running == s.running
    && pid in t.lane && t.lane[pid] == l && pid in t.table && t.table[pid] == Moved(p, Ready, now)
  }

  lemma JoiningKeepsOthers(s: Queues, t: Queues, l: nat, pid: nat)
    requires l < |s.ready| && |t.running| == |s.running| && SameBut(pid, s.lane, s.table, t.lane, t.table)
    requires t.ready == s.ready[l := s.ready[l] + [pid]] && t.running == s.running
    requires t.blocked == s.blocked || t.blocked == Without(s.blocked, pid)
    ensures OthersKept(s, t, pid)
  {
    hide Without;
    WithoutStep(s.ready[l], pid, pid);
    WithoutTwice(s.blocked, pid);
  }

  /**
   An enqueue succeeds exactly for a lane that exists and a process that is ready or running
   already, which changes nothing, or can become ready, which then joins the lane.
   */
  lemma EnqueueIs(s: Queues, pid: nat, p: Process, l: nat, now: Tick)
    requires Placed(s) && (pid in s.table ==> s.table[pid] == p)
    ensures var (t, r) := Enqueue(s, pid, p, l, now);
            var queued := pid in s.table && p.state in {Ready, Running};
            && (r.Success? <==> l < |s.ready| && pid != INVALID_PID && (queued || p.state in {New, Blocked, Suspended}))
            && (r.Failure? ==> r.error == if l >= |s.ready| then InvalidArgument
                                          else if pid == INVALID_PID then InvalidPid
                                          else InvalidState)
            && (r.Success? && queued ==> t == s)
            && (r.Success? && !queued ==> JoinedLane(s, t, l, pid, p, now) && t.blocked == s.blocked)
            && (r.Failure? ==> t == s || (pid !in s.table && t == s.(table := s.table[pid := p])))
  {
    hide Moved, Without, OthersKept, ReadyAgree, RunningAgree, BlockedAgree;
    var (t, r) := Enqueue(s, pid, p, l, now);
    if pid in s.table {
      assert HasPlace(s, pid);
      assert s.table[pid := p] == s.table;
    }
    if r.Success? && !(pid in s.table && p.state in {Ready, Running}) {
      JoiningKeepsOthers(s, t, l, pid);
    }
  }

  /** An unblock succeeds exactly for a blocked process, which joins the lane it belongs to. */
  lemma UnblockIs(s: Queues, pid: nat, now: Tick)
    requires Placed(s)
    ensures var (t, r) := Unblock(s, pid, now);
            && (r.Success? <==> pid in s.blocked)
            && (r.Failure? ==> t == s && r.error == NotFound)
            && (r.Success? ==>
                  && pid in s.lane && s.lane[pid] < |s.ready| && pid in s.table && s.table[pid].state == Blocked
                  && JoinedLane(s, t, s.lane[pid], pid, s.table[pid], now) && pid !in t.blocked)
  {
    hide Moved, Without, OthersKept;
    ExactlyOnePlace(s, pid);
    var (t, r) := Unblock(s, pid, now);
    if r.Success? {
      assert HasPlace(s, pid);
      JoiningKeepsOthers(s, t, s.lane[pid], pid);
    }
  }

  /** `pid`, which ran in lane `l`, is the last of the blocked ones. */
  ghost predicate ParkedFrom(s: Queues, t: Queues, l: nat, pid: nat, now: Tick)
    requires l < |s.running|
  {
    && s.running[l] == Some(pid) && t.running == s.running[l := None]
    && t.ready == s.ready && t.blocked == s.blocked + [pid] && t.lane == s.lane
    && BecomesIn(s.table, t.table, pid, Blocked, now) && OthersKept(s, t, pid)
  }

  lemma ParkIs(s: Queues, l: nat, now: Tick)
    requires Placed(s) && l < |s.running| && s.running[l].Some?
    ensures ParkedFrom(s, Park(s, l, now), l, s.running[l].value, now)
  {
    hide Moved, Without;
    WithoutStep(s.blocked, s.running[l].value, s.running[l].value);
  }

  /** Blocking succeeds exactly for a running process; a ready one is refused, any other not found. */
  lemma BlockIs(s: Queues, pid: nat, now: Tick)
    requires Placed(s)
    ensures var (t, r) := BlockProcess(s, pid, now);
            && (r.Success? <==> exists l :: 0 <= l < |s.running| && s.running[l] == Some(pid))
            && (r.Failure? ==> t == s && r.error == if exists l :: 0 <= l < |s.ready| && pid in s.ready[l]
                                                    then InvalidState else NotFound)
            && (forall l | 0 <= l < |s.running| && s.running[l] == Some(pid) :: ParkedFrom(s, t, l, pid, now))
  {
    hide Moved, Without, ParkedFrom;
    ExactlyOnePlace(s, pid);
    forall l | 0 <= l < |s.running| && s.running[l] == Some(pid)
      ensures ParkedFrom(s, BlockProcess(s, pid, now).0, l, pid, now)
    {
      ParkIs(s, l, now);
    }
  }

  /** Blocking whoever runs takes the first busy lane. */
  lemma BlockRunningIs(s: Queues, now: Tick)
    requires Placed(s)
    ensures var (t, r) := BlockRunning(s, now);
            && (r.Success? <==> exists l :: 0 <= l < |s.running| && s.running[l].Some?)
            && (r.Failure? ==> t == s && r.error == NotFound)
            && (r.Success? ==>
                  exists l :: 0 <= l < |s.running| && s.running[l].Some? && (forall k | 0 <= k < l :: s.running[k].None?) &&
                              ParkedFrom(s, t, l, s.running[l].value, now))
  {
    hide Placed, ParkedFrom, Park;
    var l := FirstRunning(s.running);
    if l.Some? {
      ParkIs(s, l.value, now);
    }
  }

  /** `pid` is nowhere any more. */
  ghost predicate GoneFrom(s: Queues, t: Queues, pid: nat) {
    && pid !in t.table && pid !in t.lane && pid !in t.blocked
    && (forall l | 0 <= l < |t.ready| :: pid !in t.ready[l])
    && (forall l | 0 <= l < |t.running| :: t.running[l] != Some(pid))
    && OthersKept(s, t, pid)
  }

  lemma DropIs(s: Queues, pid: nat)
    requires |s.running| == |s.ready|
    ensures GoneFrom(s, Drop(s, pid), pid)
  {
    hide Without;
    WithoutTwice(s.blocked, pid);
    forall l | 0 <= l < |s.ready|
      ensures Without(Without(s.ready[l], pid), pid) == Without(s.ready[l], pid)
    {
      WithoutTwice(s.ready[l], pid);
    }
  }

  /** A known process is dequeued from wherever it is. */
  lemma DequeueIs(s: Queues, pid: nat)
    requires Placed(s)
    ensures var (t, r) := Dequeue(s, pid);
            && (r.Success? <==> pid in s.table) && (r.Failure? ==> t == s && r.error == NotFound)
            && (r.Success? ==> GoneFrom(s, t, pid))
  {
    hide Placed, GoneFrom, Drop;
    LanesMatch(s);
    DropIs(s, pid);
  }

  lemma LanesMatch(s: Queues)
    requires Placed(s)
    ensures |s.running| == |s.ready|
  {
  }

  /** A running process is ended; a ready or blocked one is refused, but off its queue. */
  lemma TerminateIs(s: Queues, pid: nat)
    requires Placed(s)
    ensures var (t, r) := Terminate(s, pid);
            && (r.Success? <==> exists l :: 0 <= l < |s.running| && s.running[l] == Some(pid))
            && (r.Failure? ==> r.error == if pid in s.table then InvalidState else NotFound)
            && (r.Success? ==> GoneFrom(s, t, pid))
            && (pid !in s.table ==> t == s)
            && (r.Failure? ==> t.table == s.table && t.running == s.running && pid !in t.blocked &&
                               OthersKept(s, t, pid) && forall l | 0 <= l < |t.ready| :: pid !in t.ready[l])
  {
    hide Without, GoneFrom, Drop;
    ExactlyOnePlace(s, pid);
    DropIs(s, pid);
    WithoutTwice(s.blocked, pid);
    forall l | 0 <= l < |s.ready|
      ensures Without(Without(s.ready[l], pid), pid) == Without(s.ready[l], pid)
    {
      WithoutTwice(s.ready[l], pid);
    }
  }

  /**
   Stealing succeeds exactly if another lane holds a ready process. The front of the first of the
   longest other lanes then belongs to the thief, whose choice follows.
   */
  lemma StealIs(s: Queues, thief: nat, slice: pos, now: Tick)
    requires Placed(s)
    ensures var (t, r) := Steal(s, thief, slice, now);
            && (r.Success? <==> thief < |s.ready| && exists l :: 0 <= l < |s.ready| && l != thief && s.ready[l] != [])
            && (r.Failure? ==> t == s && r.error == if thief < |s.ready| then NotFound else InvalidArgument)
            && (r.Success? ==>
                  exists v: nat, u: Queues :: Robbed(s, u, v, thief) && Placed(u) && (t, r) == Choose(u, thief, slice, now))
  {
    hide Choose, Placed, Shift, OthersKept;
    LanesMatch(s);
    if thief < |s.ready| && Victim(s.ready, thief).Some? {
      var v := Victim(s.ready, thief).value;
      ShiftKeepsPlaced(s, v, thief);
      ShiftRobs(s, v, thief);
      ChoiceIs(Shift(s, v, thief), thief, slice, now);
    }
  }

  /** The first of the longest lanes other than the thief's. */
  ghost predicate Longest(ready: seq<seq<nat>>, thief: nat, v: nat) {
    && v < |ready| && v != thief && ready[v] != []
    && forall l | 0 <= l < |ready| && l != thief :: |ready[l]| < |ready[v]| || (|ready[l]| == |ready[v]| && v <= l)
  }

  /** The front of the longest lane `v` has gone to the end of the thief's, and nothing else has changed. */
  ghost predicate Robbed(s: Queues, u: Queues, v: nat, thief: nat) {
    && thief < |s.ready| == |u.ready| && Longest(s.ready, thief, v)
    && u.ready[v] == s.ready[v][1..] && u.ready[thief] == s.ready[thief] + [s.ready[v][0]]
    && (forall l | 0 <= l < |s.ready| && l != v && l != thief :: u.ready[l] == s.ready[l])
    && s.ready[v][0] in u.lane && u.lane[s.ready[v][0]] == thief && OthersKept(s, u, s.ready[v][0])
    && u.running == s.running && u.blocked == s.blocked && u.table == s.table
  }

  lemma ShiftRobs(s: Queues, v: nat, thief: nat)
    requires Placed(s) && thief < |s.ready| && Longest(s.ready, thief, v)
    ensures Robbed(s, Shift(s, v, thief), v, thief)
  {
    hide Without, ReadyAgree, RunningAgree, BlockedAgree;
    var pid := s.ready[v][0];
    assert s.ready[v] == [pid] + s.ready[v][1..];
    WithoutFirst(s.ready[v][1..], pid);
    WithoutStep(s.ready[thief], pid, pid);
  }

  lemma {:induction false} WithoutFirst(q: seq<nat>, x: nat)
    ensures Without([x] + q, x) == Without(q, x)
  {
    hide Without;
    if q == [] {
      assert [x] + q == q + [x];
      WithoutStep(q, x, x);
    } else {
      var front, y := q[..|q| - 1], q[|q| - 1];
      assert q == front + [y] && [x] + q == ([x] + front) + [y];
      WithoutStep(front, y, x);
      WithoutStep([x] + front, y, x);
      WithoutFirst(front, x);
    }
  }
}
