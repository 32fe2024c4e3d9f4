/** Round Robin on one lane starves nobody. */
module RoundRobinFairness {
  import opened Core
  import opened ProcessControl
  import opened SchedulerState
  import opened SchedulerOps
  import opened RoundRobin

  // ---------------------------------------------------------------- who is ahead

  /** How many processes of the queue precede `p`. */
  ghost function Ahead(queue: seq<nat>, table: map<nat, Process>, p: nat): nat {
    if queue == [] then 0
    else
      var n := |queue| - 1;
      Ahead(queue[..n], table, p) + (if Earlier(SnapshotOf(table, queue[n]), SnapshotOf(table, p)) then 1 else 0)
  }

  lemma {:induction false} AheadSame(queue: seq<nat>, table: map<nat, Process>, table': map<nat, Process>, p: nat)
    requires Last(table', p) == Last(table, p)
    requires forall q | q in queue :: Last(table', q) == Last(table, q)
    ensures Ahead(queue, table', p) == Ahead(queue, table, p)
  {
    if queue != [] {
      var n := |queue| - 1;
      assert queue[n] in queue;
      AheadSame(queue[..n], table, table', p);
    }
  }

  lemma AheadAppend(queue: seq<nat>, table: map<nat, Process>, p: nat, x: nat)
    ensures Ahead(queue + [x], table, p) ==
            Ahead(queue, table, p) + (if Earlier(SnapshotOf(table, x), SnapshotOf(table, p)) then 1 else 0)
  {
    assert (queue + [x])[..|queue|] == queue;
  }

  lemma {:induction false} AheadWithout(queue: seq<nat>, table: map<nat, Process>, p: nat, x: nat)
    requires Distinct(queue)
    ensures Ahead(Without(queue, x), table, p) ==
            Ahead(queue, table, p) -
            (if x in queue && Earlier(SnapshotOf(table, x), SnapshotOf(table, p)) then 1 else 0)
  {
    if queue != [] {
      var n := |queue| - 1;
      assert queue == queue[..n] + [queue[n]];
      AheadWithout(queue[..n], table, p, x);
      assert queue[n] !in queue[..n];
      AheadAppend(Without(queue[..n], x), table, p, queue[n]);
    }
  }

  // ---------------------------------------------------------------- steps of a run

  datatype Op =
    | Admit(pid: nat, image: Process)
    | Remove(pid: nat)
    | Choose
    | Steal
    | ParkAny
    | ParkOne(pid: nat)
    | Resume(pid: nat)
    | Finish(pid: nat)

  datatype Step = Step(op: Op, now: Tick)

  /** The operation respects the conditions under which the queues stay in order. */
  ghost predicate Legal(s: Queues, op: Op) {
    match op
    case Admit(pid, p) =>
      if pid in s.table then s.table[pid] == p && p.state != Blocked else p.state in {New, Blocked, Suspended}
    case Finish(pid) => pid in s.table ==> s.table[pid].state == Running
    case _ => true
  }

  /** One operation on lane 0. */
  ghost function After(s: Queues, slice: pos, step: Step): Queues
    requires Placed(s) && Legal(s, step.op)
  {
    match step.op
    case Admit(pid, p) => EnqueueKeepsPlacedIff(s, pid, p, 0, step.now); Enqueue(s, pid, p, 0, step.now).0
    case Remove(pid) => Dequeue(s, pid).0
    case Choose => SchedulerOps.Choose(s, 0, slice, step.now).0
    case Steal => SchedulerOps.Steal(s, 0, slice, step.now).0
    case ParkAny => BlockRunning(s, step.now).0
    case ParkOne(pid) => BlockProcess(s, pid, step.now).0
    case Resume(pid) => Unblock(s, pid, step.now).0
    case Finish(pid) => Terminate(s, pid).0
  }

  /** A choice that lets another process run. */
  ghost predicate IsSwitch(s: Queues, slice: pos, step: Step)
    requires |s.ready| == |s.running| > 0
  {
    step.op.Choose? && s.ready[0] != [] && (s.running[0].None? || SliceOver(s, 0, slice, step.now))
  }

  lemma StepKeepsPlaced(s: Queues, slice: pos, step: Step)
    requires Placed(s) && |s.ready| == 1 && Legal(s, step.op)
    ensures Placed(After(s, slice, step)) && |After(s, slice, step).ready| == 1
  {
    hide Placed;
    PlacedShape(s);
    match step.op
    case Admit(pid, p) => EnqueueKeepsPlacedIff(s, pid, p, 0, step.now);
    case Remove(pid) => DropKeepsPlaced(s, pid);
    case Choose => ChooseKeepsPlaced(s, 0, slice, step.now);
    case Steal => StealKeepsPlaced(s, 0, slice, step.now);
    case ParkAny => BlockRunningKeepsPlaced(s, step.now);
    case ParkOne(pid) => BlockKeepsPlaced(s, pid, step.now);
    case Resume(pid) => UnblockKeepsPlaced(s, pid, step.now);
    case Finish(pid) => TerminateKeepsPlacedIff(s, pid);
  }

  lemma PlacedShape(s: Queues)
    requires Placed(s)
    ensures |s.running| == |s.ready| > 0
  {
  }

  // ---------------------------------------------------------------- nobody gets ahead

  /** `p` still waits, with no more processes ahead of it, and fewer after a switch. */
  ghost predicate Closer(s: Queues, t: Queues, p: nat, switch: bool)
    requires |s.ready| == |t.ready| == 1
  {
    && p in t.ready[0] && p in t.table && Last(t.table, p) == Last(s.table, p)
    && Ahead(t.ready[0], t.table, p) + (if switch then 1 else 0) <= Ahead(s.ready[0], s.table, p)
  }

  /** A process that becomes ready after `p` did is not ahead of it. */
  lemma LatecomerNotAhead(queue: seq<nat>, table: map<nat, Process>, table': map<nat, Process>, p: nat, x: nat)
    requires x !in queue && p != x && Last(table', p) == Last(table, p) < Last(table', x)
    requires forall q | q in queue :: Last(table', q) == Last(table, q)
    ensures Ahead(queue + [x], table', p) == Ahead(queue, table, p)
  {
    AheadAppend(queue, table', p, x);
    AheadSame(queue, table, table', p);
  }

  lemma ReadyIsReady(s: Queues, q: nat)
    requires Placed(s) && q in s.ready[0]
    ensures q in s.table && s.table[q].state == Ready && Distinct(s.ready[0])
  {
  }

  /** Taking a process other than `p` from the queue. */
  lemma TakenAway(s: Queues, p: nat, x: nat, table': map<nat, Process>)
    requires Placed(s) && p in s.ready[0] && x != p
    requires forall q | q != x :: q in table' <==> q in s.table
    requires forall q | q != x && q in s.table :: table'[q] == s.table[q]
    ensures p in Without(s.ready[0], x) && p in table' && Last(table', p) == Last(s.table, p)
    ensures Ahead(Without(s.ready[0], x), table', p) ==
            Ahead(s.ready[0], s.table, p) -
            (if x in s.ready[0] && Earlier(SnapshotOf(s.table, x), SnapshotOf(s.table, p)) then 1 else 0)
  {
    hide Without, Ahead;
    AheadWithout(s.ready[0], s.table, p, x);
    AheadSame(Without(s.ready[0], x), s.table, table', p);
  }

  lemma StartBringsCloser(s: Queues, p: nat, x: nat, now: Tick)
    requires Placed(s) && |s.ready| == 1 && p in s.ready[0] && x in s.ready[0] && x != p
    requires Earlier(SnapshotOf(s.table, x), SnapshotOf(s.table, p))
    ensures Closer(s, Start(s, 0, x, now), p, true)
  {
    hide Without, Ahead, Moved;
    TakenAway(s, p, x, Start(s, 0, x, now).table);
  }

  lemma AppendKeepsCloser(s: Queues, t: Queues, p: nat, x: nat)
    requires Placed(s) && |s.ready| == |t.ready| == 1 && p in s.ready[0] && x !in s.ready[0]
    requires t.ready[0] == s.ready[0] + [x] && x in t.table && Last(s.table, p) < Last(t.table, x)
    requires forall q | q != x && q in s.table :: q in t.table && t.table[q] == s.table[q]
    ensures Closer(s, t, p, false)
  {
    hide Ahead;
    LatecomerNotAhead(s.ready[0], s.table, t.table, p, x);
  }

  lemma ChoiceBringsCloser(s: Queues, slice: pos, p: nat, now: Tick)
    requires Placed(s) && |s.ready| == 1 && p in s.ready[0] && Last(s.table, p) < now
    ensures var t := After(s, slice, Step(Op.Choose, now));
            |t.ready| == |t.running| == 1 &&
            (t.running[0] == Some(p) || Closer(s, t, p, IsSwitch(s, slice, Step(Op.Choose, now))))
  {
    hide Ahead, Moved, Without, Earlier;
    PickIsReady(s, 0);
    var x := Pick(s, 0);
    if s.running[0].Some? && SliceOver(s, 0, slice, now) {
      var s1, r := Preempt(s, 0, now), s.running[0].value;
      PreemptKeepsPlaced(s, 0, now);
      assert r !in s.ready[0];
      AppendKeepsCloser(s, s1, p, r);
      if x != p {
        assert SnapshotOf(s1.table, x) == SnapshotOf(s.table, x);
        StartBringsCloser(s1, p, x, now);
      }
    } else if s.running[0].None? && x != p {
      StartBringsCloser(s, p, x, now);
    }
  }

  lemma RemovalKeepsCloser(s: Queues, p: nat, x: nat)
    requires Placed(s) && |s.ready| == 1 && p in s.ready[0] && x != p
    ensures Closer(s, Drop(s, x), p, false)
  {
    hide Ahead, Without;
    TakenAway(s, p, x, Drop(s, x).table);
  }

  lemma ParkKeepsCloser(s: Queues, p: nat, now: Tick)
    requires Placed(s) && |s.ready| == 1 && p in s.ready[0] && s.running[0].Some?
    ensures Closer(s, Park(s, 0, now), p, false)
  {
    hide Ahead, Without, Moved;
    var r := s.running[0].value;
    assert r !in s.ready[0];
    AheadSame(s.ready[0], s.table, Park(s, 0, now).table, p);
  }

  /** No operation, after the tick at which `p` became ready, puts anyone ahead of it. */
  lemma StepBringsCloser(s: Queues, slice: pos, p: nat, step: Step)
    requires Placed(s) && |s.ready| == 1 && p in s.ready[0] && Legal(s, step.op)
    requires step.op != Remove(p) && Last(s.table, p) < step.now
    ensures var t := After(s, slice, step);
            |t.ready| == |t.running| == 1 &&
            (t.running[0] == Some(p) || Closer(s, t, p, IsSwitch(s, slice, step)))
  {
    hide Ahead, Moved, Without, Placed, Closer;
    PlacedShape(s);
    StepKeepsPlaced(s, slice, step);
    PlacedShape(After(s, slice, step));
    StaysClose(s, p);
    match step.op
    case Choose => ChoiceBringsCloser(s, slice, p, step.now);
    case Steal => NobodyToStealFrom(s.ready);
    case ParkAny => ParkAnyKeepsCloser(s, p, step.now);
    case ParkOne(pid) => ParkOneKeepsCloser(s, p, pid, step.now);
    case Resume(pid) => ResumeKeepsCloser(s, p, pid, step.now);
    case Remove(pid) =>
      if pid in s.table {
        RemovalKeepsCloser(s, p, pid);
      }
    case Finish(pid) =>
      if pid in s.table {
        ReadyIsReady(s, p);
        RemovalKeepsCloser(s, p, pid);
      }
    case Admit(pid, q) => AdmitKeepsCloser(s, p, pid, q, step.now);
  }

  lemma NobodyToStealFrom(ready: seq<seq<nat>>)
    requires |ready| == 1
    ensures Victim(ready, 0).None?
  {
  }

  lemma StaysClose(s: Queues, p: nat)
    requires Placed(s) && |s.ready| == 1 && p in s.ready[0]
    ensures Closer(s, s, p, false)
  {
    ReadyIsReady(s, p);
  }

  lemma ParkAnyKeepsCloser(s: Queues, p: nat, now: Tick)
    requires Placed(s) && |s.ready| == 1 && p in s.ready[0]
    ensures Closer(s, BlockRunning(s, now).0, p, false)
  {
    hide Ahead, Moved, Without, Closer;
    StaysClose(s, p);
    if FirstRunning(s.running).Some? {
      ParkKeepsCloser(s, p, now);
    }
  }

  lemma ParkOneKeepsCloser(s: Queues, p: nat, pid: nat, now: Tick)
    requires Placed(s) && |s.ready| == 1 && p in s.ready[0]
    ensures |BlockProcess(s, pid, now).0.ready| == 1 && Closer(s, BlockProcess(s, pid, now).0, p, false)
  {
    hide Ahead, Moved, Without, Closer;
    StaysClose(s, p);
    if pid in s.table && s.table[pid].state == Running {
      assert HasPlace(s, pid);
      ParkKeepsCloser(s, p, now);
    }
  }

  lemma ResumeKeepsCloser(s: Queues, p: nat, pid: nat, now: Tick)
    requires Placed(s) && |s.ready| == 1 && p in s.ready[0] && Last(s.table, p) < now
    ensures |Unblock(s, pid, now).0.ready| == 1 && Closer(s, Unblock(s, pid, now).0, p, false)
  {
    hide Ahead, Moved, Without, Closer;
    StaysClose(s, p);
    if pid in s.table && s.table[pid].state == Blocked {
      assert HasPlace(s, pid);
      AppendKeepsCloser(s, Wake(s, pid, now), p, pid);
    }
  }

  lemma AdmitKeepsCloser(s: Queues, p: nat, pid: nat, q: Process, now: Tick)
    requires Placed(s) && |s.ready| == 1 && p in s.ready[0] && Legal(s, Admit(pid, q)) && Last(s.table, p) < now
    ensures pid in s.table ==> HasPlace(s, pid)
    ensures var t := Enqueue(s, pid, q, 0, now).0; |t.ready| == 1 && Closer(s, t, p, false)
  {
    hide Ahead, Moved, Without, Closer, Placed;
    EnqueueKeepsPlacedIff(s, pid, q, 0, now);
    StaysClose(s, p);
    var t := Enqueue(s, pid, q, 0, now).0;
    if pid in s.ready[0] {
      ReadyIsReady(s, pid);
    } else if pid != INVALID_PID && !(pid in s.table && q.state in {Ready, Running}) {
      AppendKeepsCloser(s, t, p, pid);
    }
  }

  // ---------------------------------------------------------------- whole runs

  ghost predicate LegalRun(s: Queues, slice: pos, steps: seq<Step>)
    requires Placed(s) && |s.ready| == 1
    decreases |steps|
  {
    steps == [] ||
    (Legal(s, steps[0].op) && (StepKeepsPlaced(s, slice, steps[0]); LegalRun(After(s, slice, steps[0]), slice, steps[1..])))
  }

  ghost function EndOf(s: Queues, slice: pos, steps: seq<Step>): (t: Queues)
    requires Placed(s) && |s.ready| == 1 && LegalRun(s, slice, steps)
    ensures Placed(t) && |t.ready| == 1
    decreases |steps|
  {
    if steps == [] then s
    else
      StepKeepsPlaced(s, slice, steps[0]);
      EndOf(After(s, slice, steps[0]), slice, steps[1..])
  }

  ghost function Switches(s: Queues, slice: pos, steps: seq<Step>): nat
    requires Placed(s) && |s.ready| == 1 && LegalRun(s, slice, steps)
    decreases |steps|
  {
    if steps == [] then 0
    else
      StepKeepsPlaced(s, slice, steps[0]);
      (if IsSwitch(s, slice, steps[0]) then 1 else 0) + Switches(After(s, slice, steps[0]), slice, steps[1..])
  }

  ghost predicate RunsAfter(s: Queues, slice: pos, steps: seq<Step>, i: nat, p: nat)
    requires Placed(s) && |s.ready| == 1
  {
    i <= |steps| && LegalRun(s, slice, steps[..i]) && EndOf(s, slice, steps[..i]).running[0] == Some(p)
  }

  lemma {:induction false} PrefixIsLegal(s: Queues, slice: pos, steps: seq<Step>, i: nat)
    requires Placed(s) && |s.ready| == 1 && LegalRun(s, slice, steps) && i <= |steps|
    ensures LegalRun(s, slice, steps[..i])
    decreases |steps|
  {
    hide Placed, Legal, After;
    if i > 0 {
      StepKeepsPlaced(s, slice, steps[0]);
      PrefixIsLegal(After(s, slice, steps[0]), slice, steps[1..], i - 1);
      assert steps[..i][1..] == steps[1..][..i - 1];
    }
  }

  /**
   Main result. A ready process that is not removed runs before more switches have happened than
   there were processes ahead of it, whatever else is called in between.
   */
  lemma {:induction false} NobodyStarves(s: Queues, slice: pos, steps: seq<Step>, p: nat) returns (i: nat)
    requires Placed(s) && |s.ready| == 1 && LegalRun(s, slice, steps) && p in s.ready[0]
    requires forall k | 0 <= k < |steps| :: steps[k].op != Remove(p) && Last(s.table, p) < steps[k].now
    requires Switches(s, slice, steps) > Ahead(s.ready[0], s.table, p)
    ensures 0 < i && RunsAfter(s, slice, steps, i, p)
    decreases |steps|
  {
    hide Placed, Legal, After, Ahead, IsSwitch;
    PlacedShape(s);
    assert steps != [];
    var step := steps[0];
    StepKeepsPlaced(s, slice, step);
    StepBringsCloser(s, slice, p, step);
    var t := After(s, slice, step);
    if t.running[0] == Some(p) {
      i := 1;
      OneStep(s, slice, steps);
    } else {
      var j := NobodyStarves(t, slice, steps[1..], p);
      i := j + 1;
      PrefixIsLegal(s, slice, steps, i);
      assert steps[..i][1..] == steps[1..][..j];
    }
  }

  lemma OneStep(s: Queues, slice: pos, steps: seq<Step>)
    requires Placed(s) && |s.ready| == 1 && LegalRun(s, slice, steps) && steps != []
    ensures LegalRun(s, slice, steps[..1]) && EndOf(s, slice, steps[..1]) == After(s, slice, steps[0])
  {
    hide Placed, Legal, After;
    PrefixIsLegal(s, slice, steps, 1);
    StepKeepsPlaced(s, slice, steps[0]);
    assert steps[..1][1..] == [];
  }
}
