/**
 The scheduler's queues as a value: ready lanes, running slots, the blocked list, the lane each
 process belongs to and its control block. Operations are described by the state of the process
 concerned; that the queues agree with it is the invariant.
 */
module SchedulerState {
  import opened Core
  import opened ProcessControl

  datatype Queues = Queues(
    ready: seq<seq<nat>>,
    running: seq<Option<nat>>,
    blocked: seq<nat>,
    lane: map<nat, nat>,
    table: map<nat, Process>)

  // ---------------------------------------------------------------- the invariant

  /** A process in the ready lane `l` is ready and belongs to that lane. */
  ghost predicate ReadyAgree(ready: seq<seq<nat>>, lane: map<nat, nat>, table: map<nat, Process>) {
    && (forall l | 0 <= l < |ready| :: Distinct(ready[l]))
    && forall l, pid | 0 <= l < |ready| && pid in ready[l] ::
         pid in table && table[pid].state == Ready && pid in lane && lane[pid] == l
  }

  ghost predicate RunningAgree(running: seq<Option<nat>>, lane: map<nat, nat>, table: map<nat, Process>) {
    forall l | 0 <= l < |running| && running[l].Some? ::
      var pid := running[l].value;
      pid in table && table[pid].state == Running && pid in lane && lane[pid] == l
  }

  ghost predicate BlockedAgree(blocked: seq<nat>, table: map<nat, Process>) {
    Distinct(blocked) && forall pid | pid in blocked :: pid in table && table[pid].state == Blocked
  }

  /** The place that the state of `pid` names does hold it. */
  ghost predicate HasPlace(s: Queues, pid: nat)
    requires pid in s.table && |s.running| == |s.ready|
  {
    && pid != INVALID_PID && pid in s.lane && s.lane[pid] < |s.ready|
    && match s.table[pid].state
       case Ready => pid in s.ready[s.lane[pid]]
       case Running => s.running[s.lane[pid]] == Some(pid)
       case Blocked => pid in s.blocked
       case _ => false
  }

  /** Every known process is in exactly one place, and its state says which. */
  ghost predicate Placed(s: Queues) {
    && |s.running| == |s.ready| > 0 && s.lane.Keys == s.table.Keys
    && ReadyAgree(s.ready, s.lane, s.table)
    && RunningAgree(s.running, s.lane, s.table)
    && BlockedAgree(s.blocked, s.table)
    && forall pid | pid in s.table :: HasPlace(s, pid)
  }

  /** Spelled out: one place, no other, and nothing unknown anywhere. */
  lemma ExactlyOnePlace(s: Queues, pid: nat)
    requires Placed(s)
    ensures (exists l :: 0 <= l < |s.ready| && pid in s.ready[l]) <==> pid in s.table && s.table[pid].state == Ready
    ensures (exists l :: 0 <= l < |s.running| && s.running[l] == Some(pid)) <==>
            pid in s.table && s.table[pid].state == Running
    ensures pid in s.blocked <==> pid in s.table && s.table[pid].state == Blocked
    ensures pid in s.table ==> s.table[pid].state in {Ready, Running, Blocked}
    ensures forall k, l | 0 <= k < l < |s.ready| :: pid in s.ready[k] ==> pid !in s.ready[l]
    ensures forall k, l | 0 <= k < l < |s.running| :: s.running[k] == Some(pid) ==> s.running[l] != Some(pid)
  {
    if pid in s.table {
      assert HasPlace(s, pid);
    }
  }

  // ---------------------------------------------------------------- moves

  function Put(s: Queues, pid: nat, to: ProcessState, now: Tick): map<nat, Process>
    requires pid in s.table
  {
    s.table[pid := Moved(s.table[pid], to, now)]
  }

  /** The process running in lane `l` goes to the end of that lane. */
  function Preempt(s: Queues, l: nat, now: Tick): Queues
    requires l < |s.ready| == |s.running| && s.running[l].Some? && s.running[l].value in s.table
  {
    var pid := s.running[l].value;
    Queues(s.ready[l := s.ready[l] + [pid]], s.running[l := None], s.blocked, s.lane[pid := l], Put(s, pid, Ready, now))
  }

  /** A ready process of lane `l` runs. */
  function Start(s: Queues, l: nat, pid: nat, now: Tick): Queues
    requires l < |s.ready| == |s.running| && pid in s.table
  {
    Queues(s.ready[l := Without(s.ready[l], pid)], s.running[l := Some(pid)], s.blocked, s.lane[pid := l],
           Put(s, pid, Running, now))
  }

  /** The process running in lane `l` waits. */
  function Park(s: Queues, l: nat, now: Tick): Queues
    requires l < |s.ready| == |s.running| && s.running[l].Some? && s.running[l].value in s.table
  {
    var pid := s.running[l].value;
    Queues(s.ready, s.running[l := None], s.blocked + [pid], s.lane, Put(s, pid, Blocked, now))
  }

  /** A blocked process returns to its lane. */
  function Wake(s: Queues, pid: nat, now: Tick): Queues
    requires pid in s.table && pid in s.lane && s.lane[pid] < |s.ready|
  {
    var l := s.lane[pid];
    Queues(s.ready[l := s.ready[l] + [pid]], s.running, Without(s.blocked, pid), s.lane[pid := l], Put(s, pid, Ready, now))
  }

  /** A process joins lane `l`. */
  function Join(s: Queues, l: nat, pid: nat, now: Tick): Queues
    requires l < |s.ready| && pid in s.table
  {
    Queues(s.ready[l := s.ready[l] + [pid]], s.running, s.blocked, s.lane[pid := l], Put(s, pid, Ready, now))
  }

  /** The front of lane `from` goes to the end of lane `to`. */
  function Shift(s: Queues, from: nat, to: nat): Queues
    requires from < |s.ready| && to < |s.ready| && from != to && s.ready[from] != []
  {
    var pid := s.ready[from][0];
    s.(ready := s.ready[from := s.ready[from][1..]][to := s.ready[to] + [pid]], lane := s.lane[pid := to])
  }

  function WithoutAll(ready: seq<seq<nat>>, pid: nat): (r: seq<seq<nat>>)
    ensures |r| == |ready| && forall l | 0 <= l < |r| :: r[l] == Without(ready[l], pid)
  {
    seq(|ready|, l requires 0 <= l < |ready| => Without(ready[l], pid))
  }

  function Vacated(running: seq<Option<nat>>, pid: nat): (r: seq<Option<nat>>)
    ensures |r| == |running|
    ensures forall l | 0 <= l < |r| :: r[l] == if running[l] == Some(pid) then None else running[l]
  {
    seq(|running|, l requires 0 <= l < |running| => if running[l] == Some(pid) then None else running[l])
  }

  /** The process is forgotten. */
  function Drop(s: Queues, pid: nat): Queues {
    Queues(WithoutAll(s.ready, pid), Vacated(s.running, pid), Without(s.blocked, pid), s.lane - {pid}, s.table - {pid})
  }

  // ---------------------------------------------------------------- moves keep the invariant

  /** The two descriptions differ at most in `pid`. */
  ghost predicate SameBut(pid: nat, lane: map<nat, nat>, table: map<nat, Process>,
                          lane': map<nat, nat>, table': map<nat, Process>) {
    forall q | q != pid ::
      && (q in lane' <==> q in lane) && (q in lane ==> lane'[q] == lane[q])
      && (q in table' <==> q in table) && (q in table ==> table'[q] == table[q])
  }

  lemma ReadyAppended(ready: seq<seq<nat>>, lane: map<nat, nat>, table: map<nat, Process>, l: nat, pid: nat,
                      lane': map<nat, nat>, table': map<nat, Process>)
    requires ReadyAgree(ready, lane, table) && SameBut(pid, lane, table, lane', table') && l < |ready|
    requires pid in table ==> table[pid].state != Ready
    requires pid in lane' && lane'[pid] == l && pid in table' && table'[pid].state == Ready
    ensures ReadyAgree(ready[l := ready[l] + [pid]], lane', table')
  {
  }

  lemma ReadyRemoved(ready: seq<seq<nat>>, lane: map<nat, nat>, table: map<nat, Process>, l: nat, pid: nat,
                     lane': map<nat, nat>, table': map<nat, Process>)
    requires ReadyAgree(ready, lane, table) && SameBut(pid, lane, table, lane', table') && l < |ready|
    requires pid in ready[l]
    ensures ReadyAgree(ready[l := Without(ready[l], pid)], lane', table')
  {
    hide Without;
    WithoutKeepsDistinct(ready[l], pid);
  }

  lemma ReadyCleared(ready: seq<seq<nat>>, lane: map<nat, nat>, table: map<nat, Process>, pid: nat,
                     lane': map<nat, nat>, table': map<nat, Process>)
    requires ReadyAgree(ready, lane, table) && SameBut(pid, lane, table, lane', table')
    ensures ReadyAgree(WithoutAll(ready, pid), lane', table')
  {
    hide Without;
    forall l | 0 <= l < |ready|
      ensures Distinct(Without(ready[l], pid))
    {
      WithoutKeepsDistinct(ready[l], pid);
    }
  }

  lemma ReadyUntouched(ready: seq<seq<nat>>, lane: map<nat, nat>, table: map<nat, Process>, pid: nat,
                       lane': map<nat, nat>, table': map<nat, Process>)
    requires ReadyAgree(ready, lane, table) && SameBut(pid, lane, table, lane', table')
    requires pid in table ==> table[pid].state != Ready
    ensures ReadyAgree(ready, lane', table')
  {
  }

  lemma RunningUntouched(running: seq<Option<nat>>, lane: map<nat, nat>, table: map<nat, Process>, pid: nat,
                         lane': map<nat, nat>, table': map<nat, Process>)
    requires RunningAgree(running, lane, table) && SameBut(pid, lane, table, lane', table')
    requires pid in table ==> table[pid].state != Running
    ensures RunningAgree(running, lane', table')
  {
  }

  lemma RunningCleared(running: seq<Option<nat>>, lane: map<nat, nat>, table: map<nat, Process>, pid: nat,
                       lane': map<nat, nat>, table': map<nat, Process>)
    requires RunningAgree(running, lane, table) && SameBut(pid, lane, table, lane', table')
    ensures RunningAgree(Vacated(running, pid), lane', table')
    ensures forall l | 0 <= l < |running| && running[l] == Some(pid) :: Vacated(running, pid) == running[l := None]
  {
  }

  lemma BlockedUntouched(blocked: seq<nat>, table: map<nat, Process>, pid: nat,
                         lane: map<nat, nat>, lane': map<nat, nat>, table': map<nat, Process>)
    requires BlockedAgree(blocked, table) && SameBut(pid, lane, table, lane', table')
    requires pid in table ==> table[pid].state != Blocked
    ensures BlockedAgree(blocked, table')
  {
  }

  lemma BlockedAppended(blocked: seq<nat>, table: map<nat, Process>, pid: nat,
                        lane: map<nat, nat>, lane': map<nat, nat>, table': map<nat, Process>)
    requires BlockedAgree(blocked, table) && SameBut(pid, lane, table, lane', table')
    requires pid in table ==> table[pid].state != Blocked
    requires pid in table' && table'[pid].state == Blocked
    ensures BlockedAgree(blocked + [pid], table')
  {
  }

  lemma BlockedCleared(blocked: seq<nat>, table: map<nat, Process>, pid: nat,
                       lane: map<nat, nat>, lane': map<nat, nat>, table': map<nat, Process>)
    requires BlockedAgree(blocked, table) && SameBut(pid, lane, table, lane', table')
    ensures BlockedAgree(Without(blocked, pid), table')
  {
    hide Without;
    WithoutKeepsDistinct(blocked, pid);
  }

  lemma PreemptKeepsPlaced(s: Queues, l: nat, now: Tick)
    requires Placed(s) && l < |s.ready| && s.running[l].Some?
    ensures Placed(Preempt(s, l, now))
  {
    hide Moved, Without, ReadyAgree, BlockedAgree;
    var t, pid := Preempt(s, l, now), s.running[l].value;
    ReadyAppended(s.ready, s.lane, s.table, l, pid, t.lane, t.table);
    RunningCleared(s.running, s.lane, s.table, pid, t.lane, t.table);
    BlockedUntouched(s.blocked, s.table, pid, s.lane, t.lane, t.table);
    PlacesKept(s, t, pid);
  }

  /** Nobody else's place is disturbed. */
  lemma PlacesKept(s: Queues, t: Queues, pid: nat)
    requires |s.running| == |s.ready| == |t.ready| == |t.running|
    requires SameBut(pid, s.lane, s.table, t.lane, t.table)
    requires forall l, q | 0 <= l < |s.ready| && q != pid && q in s.ready[l] :: q in t.ready[l]
    requires forall l | 0 <= l < |s.running| && s.running[l].Some? && s.running[l] != Some(pid) ::
               t.running[l] == s.running[l]
    requires forall q | q != pid && q in s.blocked :: q in t.blocked
    requires forall q | q in s.table :: HasPlace(s, q)
    requires pid in t.table ==> HasPlace(t, pid)
    ensures forall q | q in t.table :: HasPlace(t, q)
  {
    forall q | q in t.table
      ensures HasPlace(t, q)
    {
      if q != pid {
        assert HasPlace(s, q);
      }
    }
  }

  lemma StartKeepsPlaced(s: Queues, l: nat, pid: nat, now: Tick)
    requires Placed(s) && l < |s.ready| && s.running[l].None? && pid in s.ready[l]
    ensures Placed(Start(s, l, pid, now))
  {
    hide Moved, Without, BlockedAgree;
    var t := Start(s, l, pid, now);
    ReadyRemoved(s.ready, s.lane, s.table, l, pid, t.lane, t.table);
    RunningUntouched(s.running, s.lane, s.table, pid, t.lane, t.table);
    BlockedUntouched(s.blocked, s.table, pid, s.lane, t.lane, t.table);
    assert HasPlace(s, pid);
    PlacesKept(s, t, pid);
  }

  lemma ParkKeepsPlaced(s: Queues, l: nat, now: Tick)
    requires Placed(s) && l < |s.ready| && s.running[l].Some?
    ensures Placed(Park(s, l, now))
  {
    hide Moved, Without, ReadyAgree, BlockedAgree;
    var t, pid := Park(s, l, now), s.running[l].value;
    BlockedAppended(s.blocked, s.table, pid, s.lane, t.lane, t.table);
    ReadyUntouched(s.ready, s.lane, s.table, pid, t.lane, t.table);
    RunningCleared(s.running, s.lane, s.table, pid, t.lane, t.table);
    assert HasPlace(s, pid);
    PlacesKept(s, t, pid);
  }

  lemma WakeKeepsPlaced(s: Queues, pid: nat, now: Tick)
    requires Placed(s) && pid in s.table && s.table[pid].state == Blocked
    ensures HasPlace(s, pid) && Placed(Wake(s, pid, now))
  {
    hide Moved, Without, ReadyAgree, RunningAgree, BlockedAgree;
    assert HasPlace(s, pid);
    var t := Wake(s, pid, now);
    ReadyAppended(s.ready, s.lane, s.table, s.lane[pid], pid, t.lane, t.table);
    RunningUntouched(s.running, s.lane, s.table, pid, t.lane, t.table);
    BlockedCleared(s.blocked, s.table, pid, s.lane, t.lane, t.table);
    PlacesKept(s, t, pid);
  }

  lemma JoinKeepsPlaced(s: Queues, l: nat, pid: nat, p: Process, now: Tick)
    requires Placed(s) && l < |s.ready| && pid !in s.table && pid != INVALID_PID
    ensures Placed(Join(s.(table := s.table[pid := p]), l, pid, now))
  {
    hide Moved, Without, ReadyAgree, RunningAgree, BlockedAgree;
    var t := Join(s.(table := s.table[pid := p]), l, pid, now);
    ReadyAppended(s.ready, s.lane, s.table, l, pid, t.lane, t.table);
    RunningUntouched(s.running, s.lane, s.table, pid, t.lane, t.table);
    BlockedUntouched(s.blocked, s.table, pid, s.lane, t.lane, t.table);
    PlacesKept(s, t, pid);
  }

  lemma InOneLane(ready: seq<seq<nat>>, lane: map<nat, nat>, table: map<nat, Process>, k: nat, l: nat, pid: nat)
    requires ReadyAgree(ready, lane, table) && k < |ready| && l < |ready| && k != l && pid in ready[k]
    ensures pid !in ready[l]
  {
    assert lane[pid] == k;
  }

  lemma ReadyShifted(ready: seq<seq<nat>>, lane: map<nat, nat>, table: map<nat, Process>, from: nat, to: nat)
    requires ReadyAgree(ready, lane, table) && from < |ready| && to < |ready| && from != to && ready[from] != []
    ensures ReadyAgree(ready[from := ready[from][1..]][to := ready[to] + [ready[from][0]]],
                       lane[ready[from][0] := to], table)
  {
    var pid := ready[from][0];
    assert pid in ready[from] && pid in lane && lane[pid] == from;
    assert ready[from] == [pid] + ready[from][1..];
    InOneLane(ready, lane, table, from, to, pid);
    var ready' := ready[from := ready[from][1..]][to := ready[to] + [pid]];
    assert Distinct(ready'[from]) && Distinct(ready'[to]);
  }

  lemma ShiftKeepsPlaced(s: Queues, from: nat, to: nat)
    requires Placed(s) && from < |s.ready| && to < |s.ready| && from != to && s.ready[from] != []
    ensures Placed(Shift(s, from, to)) && Shift(s, from, to).ready[to] != []
  {
    hide Moved, Without, BlockedAgree;
    var t, pid := Shift(s, from, to), s.ready[from][0];
    ReadyShifted(s.ready, s.lane, s.table, from, to);
    assert s.ready[from] == [pid] + s.ready[from][1..];
    assert pid in s.ready[from] && HasPlace(s, pid);
    RunningUntouched(s.running, s.lane, s.table, pid, t.lane, t.table);
    PlacesKept(s, t, pid);
  }

  lemma DropKeepsPlaced(s: Queues, pid: nat)
    requires Placed(s)
    ensures Placed(Drop(s, pid))
  {
    hide Moved, Without, ReadyAgree, RunningAgree, BlockedAgree;
    var t := Drop(s, pid);
    ReadyCleared(s.ready, s.lane, s.table, pid, t.lane, t.table);
    RunningCleared(s.running, s.lane, s.table, pid, t.lane, t.table);
    BlockedCleared(s.blocked, s.table, pid, s.lane, t.lane, t.table);
    PlacesKept(s, t, pid);
  }
}
