/** The counting semaphore with first-come first-served hand-off and priority inheritance. */
module CountingSemaphore {
  import opened Core
  import opened PriorityInheritance

  // ---------------------------------------------------------------- units

  /** Free units, units held by processes, and who waits in line. */
  datatype Units = Units(count: nat, max: nat, held: multiset<nat>, queue: seq<nat>)

  /** A line forms only when nothing is free. */
  ghost predicate Orderly(s: Units) {
    && s.count <= s.max && (s.count > 0 ==> s.queue == [])
    && INVALID_PID !in s.queue && INVALID_PID !in s.held
    && forall i, j | 0 <= i < j < |s.queue| :: s.queue[i] != s.queue[j]
  }

  datatype Op = Acquire(pid: nat) | TryAcquire(pid: nat) | Release(pid: nat)

  function Answer(s: Units, op: Op): Result<()> {
    if op.pid == INVALID_PID then Failure(InvalidPid)
    else if op.Release? then (if s.queue == [] && s.count >= s.max then Failure(InvalidState) else Success(()))
    else if s.count > 0 then Success(()) else Failure(ResourceBusy)
  }

  function After(s: Units, op: Op): Units {
    if op.pid == INVALID_PID then s
    else
      match op
      case Acquire(pid) =>
        if s.count > 0 then s.(count := s.count - 1, held := s.held + multiset{pid})
        else if pid in s.queue then s
        else s.(queue := s.queue + [pid])
      case TryAcquire(pid) =>
        if s.count > 0 then s.(count := s.count - 1, held := s.held + multiset{pid}) else s
      case Release(pid) =>
        var held := s.held - multiset{pid};
        if s.queue != [] then s.(held := held + multiset{s.queue[0]}, queue := s.queue[1..])
        else if s.count >= s.max then s.(held := held)
        else s.(held := held, count := s.count + 1)
  }

  lemma AfterKeepsOrderly(s: Units, op: Op)
    requires Orderly(s)
    ensures Orderly(After(s, op))
  {
  }

  // ---------------------------------------------------------------- conservation

  /** All units, free or held. */
  function Total(s: Units): nat {
    s.count + |s.held|
  }

  /** Exactly the releases by non-holders make units, and exactly the refused ones by holders lose them. */
  lemma UnitsAfter(s: Units, op: Op)
    requires Orderly(s)
    ensures var foreign := op.pid !in s.held;
            Total(After(s, op)) - Total(s) ==
            if op.pid == INVALID_PID || !op.Release? then 0
            else if Answer(s, op).Success? then (if foreign then 1 else 0)
            else (if foreign then 0 else -1)
  {
    if op.Release? && op.pid in s.held {
      assert |s.held - multiset{op.pid}| == |s.held| - 1;
    } else if op.Release? {
      assert s.held - multiset{op.pid} == s.held;
    }
  }

  /** A release by a process that holds nothing makes a unit, and the holder's own release then loses it. */
  lemma ForeignReleaseLosesAUnit()
    ensures var s := Units(1, 1, multiset{}, []);
            var s1 := After(s, Acquire(1));
            var s2 := After(s1, Release(2));
            var s3 := After(s2, Release(1));
            && Orderly(s) && Answer(s, Acquire(1)).Success? && Answer(s1, Release(2)).Success?
            && Answer(s2, Release(1)) == Failure(InvalidState)
            && Total(s) == Total(s1) == 1 && Total(s2) == 2 && Total(s3) == 1
  {
    var s1 := After(Units(1, 1, multiset{}, []), Acquire(1));
    assert s1.held == multiset{1};
    var s2 := After(s1, Release(2));
    assert s2 == Units(1, 1, multiset{1}, []);
    assert After(s2, Release(1)).held == multiset{};
  }

  /** Only holders release. */
  ghost predicate HoldersRelease(s: Units, ops: seq<Op>)
    decreases |ops|
  {
    ops == [] || ((ops[0].Release? ==> ops[0].pid in s.held) && HoldersRelease(After(s, ops[0]), ops[1..]))
  }

  function RunOf(s: Units, ops: seq<Op>): Units
    decreases |ops|
  {
    if ops == [] then s else RunOf(After(s, ops[0]), ops[1..])
  }

  /** Every answer of a run. */
  function Answers(s: Units, ops: seq<Op>): (r: seq<Result<()>>)
    ensures |r| == |ops|
    decreases |ops|
  {
    if ops == [] then [] else [Answer(s, ops[0])] + Answers(After(s, ops[0]), ops[1..])
  }

  /** If only holders release, no unit is made or lost and no release is refused. */
  lemma {:induction false} UnitsAreConserved(s: Units, ops: seq<Op>)
    requires Orderly(s) && Total(s) <= s.max && HoldersRelease(s, ops)
    ensures Total(RunOf(s, ops)) == Total(s) && RunOf(s, ops).max == s.max
    ensures forall i | 0 <= i < |ops| && ops[i].Release? :: Answers(s, ops)[i].Success?
    decreases |ops|
  {
    if ops != [] {
      var s' := After(s, ops[0]);
      if ops[0].Release? {
        HoldersHoldUnits(s, ops[0].pid);
      }
      UnitsAfter(s, ops[0]);
      AfterKeepsOrderly(s, ops[0]);
      UnitsAreConserved(s', ops[1..]);
      forall i | 0 <= i < |ops| && ops[i].Release?
        ensures Answers(s, ops)[i].Success?
      {
        if i > 0 {
          assert ops[i] == ops[1..][i - 1];
          assert Answers(s, ops)[i] == Answers(s', ops[1..])[i - 1];
        }
      }
    }
  }

  lemma HoldersHoldUnits(s: Units, pid: nat)
    requires pid in s.held
    ensures s.count < Total(s)
  {
    assert |s.held - multiset{pid}| == |s.held| - 1;
  }

  // ---------------------------------------------------------------- the line

  /** Who gets a unit by an operation. */
  function GrantOf(s: Units, op: Op): seq<nat> {
    if op.pid == INVALID_PID then []
    else if op.Release? then (if s.queue == [] then [] else [s.queue[0]])
    else if s.count > 0 then [op.pid] else []
  }

  function Grants(s: Units, ops: seq<Op>): seq<nat>
    decreases |ops|
  {
    if ops == [] then [] else GrantOf(s, ops[0]) + Grants(After(s, ops[0]), ops[1..])
  }

  lemma StepServesInOrder(s: Units, op: Op)
    requires Orderly(s)
    ensures ServedInOrder(s.queue, GrantOf(s, op), After(s, op).queue)
  {
  }

  /** Releases that are not turned away for their process id. */
  function Releases(ops: seq<Op>): nat {
    if ops == [] then 0
    else (if ops[0].Release? && ops[0].pid != INVALID_PID then 1 else 0) + Releases(ops[1..])
  }

  /**
   Nobody overtakes and nobody is forgotten: whatever is called, the line is served from its
   head, and each release serves one of it.
   */
  lemma {:induction false} NoOvertaking(s: Units, ops: seq<Op>)
    requires Orderly(s)
    ensures Orderly(RunOf(s, ops)) && ServedInOrder(s.queue, Grants(s, ops), RunOf(s, ops).queue)
    ensures |Grants(s, ops)| >= Min(Releases(ops), |s.queue|)
    decreases |ops|
  {
    if ops != [] {
      var s' := After(s, ops[0]);
      AfterKeepsOrderly(s, ops[0]);
      StepServesInOrder(s, ops[0]);
      NoOvertaking(s', ops[1..]);
      ServedInOrderComposes(s.queue, GrantOf(s, ops[0]), s'.queue, Grants(s', ops[1..]), RunOf(s, ops).queue);
    }
  }

  // ---------------------------------------------------------------- what callers are told, and what for

  /**
   An acquire of either kind succeeds exactly if a unit is free, and then its caller is granted
   one. Only a busy `Acquire` joins the line, at its end and once. A release is refused exactly
   with every unit back already and nobody in line; else it serves the head of the line.
   */
  lemma AnswerTells(s: Units, op: Op)
    requires Orderly(s)
    ensures var s', r := After(s, op), Answer(s, op);
            && (op.pid == INVALID_PID ==> s' == s && r == Failure(InvalidPid))
            && (op.pid != INVALID_PID && op.Release? ==>
                  && (r.Success? <==> s.queue != [] || s.count < s.max) && (r.Failure? ==> r.error == InvalidState)
                  && (if s.queue != [] then GrantOf(s, op) == [s.queue[0]] else GrantOf(s, op) == []))
            && (op.pid != INVALID_PID && !op.Release? ==>
                  && (r.Success? <==> s.count > 0) && (r.Success? <==> GrantOf(s, op) == [op.pid])
                  && (r.Success? ==> s'.queue == s.queue)
                  && (r.Failure? ==> r.error == ResourceBusy && s' == s.(queue := s.queue + Joins(s, op))))
  {
  }

  /** A release takes a unit from its caller, if it has one; whoever is granted one, holds one more. */
  lemma GrantsAreHeld(s: Units, op: Op)
    requires Orderly(s)
    ensures After(s, op).held == (if op.Release? then s.held - multiset{op.pid} else s.held) + multiset(GrantOf(s, op))
  {
    if op.pid == INVALID_PID {
      assert s.held - multiset{op.pid} == s.held;
    }
    assert s.held - multiset{op.pid} + multiset{} == s.held - multiset{op.pid};
    if op.Release? && s.queue != [] {
      assert multiset([s.queue[0]]) == multiset{s.queue[0]};
    }
    assert multiset([op.pid]) == multiset{op.pid};
  }

  /** Who joins the line: the caller of a busy `Acquire` that is not in line yet. */
  function Joins(s: Units, op: Op): seq<nat> {
    if op.Acquire? && Answer(s, op) == Failure(ResourceBusy) && op.pid !in s.queue then [op.pid] else []
  }

  function AllJoins(s: Units, ops: seq<Op>): seq<nat>
    decreases |ops|
  {
    if ops == [] then [] else Joins(s, ops[0]) + AllJoins(After(s, ops[0]), ops[1..])
  }

  /** To whom a release hands a unit. */
  function HandsTo(s: Units, op: Op): seq<nat> {
    if op.Release? then GrantOf(s, op) else []
  }

  function AllHandsTo(s: Units, ops: seq<Op>): seq<nat>
    decreases |ops|
  {
    if ops == [] then [] else HandsTo(s, ops[0]) + AllHandsTo(After(s, ops[0]), ops[1..])
  }

  lemma StepConservesLine(s: Units, op: Op)
    requires Orderly(s)
    ensures s.queue + Joins(s, op) == HandsTo(s, op) + After(s, op).queue
  {
  }

  /** Over every run, those in line at first and those who join it are those served by releases and those still in line. */
  lemma {:induction false} LineIsConserved(s: Units, ops: seq<Op>)
    requires Orderly(s)
    ensures s.queue + AllJoins(s, ops) == AllHandsTo(s, ops) + RunOf(s, ops).queue
    decreases |ops|
  {
    hide Orderly, After, Answer, Joins, HandsTo;
    if ops != [] {
      var s' := After(s, ops[0]);
      AfterKeepsOrderly(s, ops[0]);
      StepConservesLine(s, ops[0]);
      LineIsConserved(s', ops[1..]);
      var joins, hands := AllJoins(s', ops[1..]), AllHandsTo(s', ops[1..]);
      calc {
        s.queue + (Joins(s, ops[0]) + joins);
        (s.queue + Joins(s, ops[0])) + joins;
        (HandsTo(s, ops[0]) + s'.queue) + joins;
        HandsTo(s, ops[0]) + (s'.queue + joins);
        HandsTo(s, ops[0]) + (hands + RunOf(s, ops).queue);
        (HandsTo(s, ops[0]) + hands) + RunOf(s, ops).queue;
      }
    }
  }

  /** How often in a run `pid` gives a unit back. */
  function GivenBack(s: Units, ops: seq<Op>, pid: nat): nat
    decreases |ops|
  {
    if ops == [] then 0
    else (if ops[0] == Release(pid) && pid in s.held then 1 else 0) + GivenBack(After(s, ops[0]), ops[1..], pid)
  }

  /** Over every run, a process holds what it held at first and was granted, less what it gave back. */
  lemma {:induction false} HeldIsCounted(s: Units, ops: seq<Op>, pid: nat)
    requires Orderly(s)
    ensures RunOf(s, ops).held[pid] == s.held[pid] + multiset(Grants(s, ops))[pid] - GivenBack(s, ops, pid)
    decreases |ops|
  {
    hide Orderly, After, GrantOf;
    if ops != [] {
      var s' := After(s, ops[0]);
      AfterKeepsOrderly(s, ops[0]);
      GrantsAreHeld(s, ops[0]);
      HeldIsCounted(s', ops[1..], pid);
      var first, rest := GrantOf(s, ops[0]), Grants(s', ops[1..]);
      assert multiset(first + rest) == multiset(first) + multiset(rest);
    }
  }

  // ---------------------------------------------------------------- enough units for all

  function Takes(ops: seq<Op>, pid: nat): nat {
    if ops == [] then 0
    else Takes(ops[..|ops| - 1], pid) + (if ops[|ops| - 1] in {Acquire(pid), TryAcquire(pid)} then 1 else 0)
  }

  function Gives(ops: seq<Op>, pid: nat): nat {
    if ops == [] then 0 else Gives(ops[..|ops| - 1], pid) + (if ops[|ops| - 1] == Release(pid) then 1 else 0)
  }

  /** Acquires less releases, of all processes. */
  function InUse(ops: seq<Op>): int {
    if ops == [] then 0 else InUse(ops[..|ops| - 1]) + (if ops[|ops| - 1].Release? then -1 else 1)
  }

  /** There are never more units in use than there are, and nobody releases more often than it acquires. */
  ghost predicate Sufficient(ops: seq<Op>, n: nat) {
    && (forall i | 0 <= i <= |ops| :: InUse(ops[..i]) <= n)
    && (forall i, pid: nat | 0 <= i <= |ops| :: Gives(ops[..i], pid) <= Takes(ops[..i], pid))
    && (forall i | 0 <= i < |ops| :: ops[i].pid != INVALID_PID)
  }

  lemma {:induction false} RunEndsWith(s: Units, ops: seq<Op>)
    requires ops != []
    ensures RunOf(s, ops) == After(RunOf(s, ops[..|ops| - 1]), ops[|ops| - 1])
    decreases |ops|
  {
    if |ops| > 1 {
      RunEndsWith(After(s, ops[0]), ops[1..]);
      assert ops[1..][..|ops| - 2] == ops[..|ops| - 1][1..];
    }
  }

  /** The state that calls alone tell. */
  ghost predicate Tallied(s: Units, ops: seq<Op>, n: nat) {
    && s.queue == [] && s.max == n && s.count == n - InUse(ops) && |s.held| == InUse(ops)
    && forall pid: nat :: s.held[pid] == Takes(ops, pid) - Gives(ops, pid)
  }

  /** With enough units for all, every call succeeds and each process holds what it acquired and has not released. */
  lemma {:induction false} EnoughForAll(ops: seq<Op>, n: nat)
    requires Sufficient(ops, n)
    ensures Tallied(RunOf(Units(n, n, multiset{}, []), ops), ops, n)
    ensures ops != [] ==> Answer(RunOf(Units(n, n, multiset{}, []), ops[..|ops| - 1]), ops[|ops| - 1]).Success?
    decreases |ops|
  {
    hide Tallied, Sufficient, After;
    var s := Units(n, n, multiset{}, []);
    if ops == [] {
      NothingInUse(n);
    } else {
      var front := ops[..|ops| - 1];
      FrontSuffices(ops, n);
      EnoughForAll(front, n);
      RunEndsWith(s, ops);
      OneMoreCall(RunOf(s, front), ops, n);
    }
  }

  lemma NothingInUse(n: nat)
    ensures Tallied(Units(n, n, multiset{}, []), [], n)
  {
  }

  lemma FrontSuffices(ops: seq<Op>, n: nat)
    requires Sufficient(ops, n) && ops != []
    ensures Sufficient(ops[..|ops| - 1], n)
  {
    var front := ops[..|ops| - 1];
    forall i | 0 <= i <= |front|
      ensures front[..i] == ops[..i]
    {
    }
  }

  lemma OneMoreCall(s: Units, ops: seq<Op>, n: nat)
    requires Sufficient(ops, n) && ops != [] && Tallied(s, ops[..|ops| - 1], n)
    ensures Tallied(After(s, ops[|ops| - 1]), ops, n) && Answer(s, ops[|ops| - 1]).Success?
  {
    var op := ops[|ops| - 1];
    assert ops[..|ops|] == ops;
    assert InUse(ops) <= n && Gives(ops, op.pid) <= Takes(ops, op.pid);
    if op.Release? {
      assert op.pid in s.held;
      assert |s.held - multiset{op.pid}| == |s.held| - 1;
    }
  }

  // ---------------------------------------------------------------- the semaphore

  function CountOf(holders: map<nat, nat>, pid: nat): nat {
    if pid in holders then holders[pid] else 0
  }

  /** The holder table counts the held units. */
  ghost predicate Counted(holders: map<nat, nat>, held: multiset<nat>) {
    forall pid :: (pid in holders <==> pid in held) && CountOf(holders, pid) == held[pid]
  }

  /** The holder table after `pid` gives back a unit, if it has one. */
  function OneLess(holders: map<nat, nat>, pid: nat): map<nat, nat> {
    if pid !in holders then holders
    else if holders[pid] <= 1 then holders - {pid}
    else holders[pid := holders[pid] - 1]
  }

  lemma OneLessCounted(holders: map<nat, nat>, held: multiset<nat>, pid: nat)
    requires Counted(holders, held)
    ensures Counted(OneLess(holders, pid), held - multiset{pid}) && OneLess(holders, pid).Keys <= holders.Keys
  {
    var holders', held' := OneLess(holders, pid), held - multiset{pid};
    forall q
      ensures (q in holders' <==> q in held') && CountOf(holders', q) == held'[q]
    {
      assert (q in holders <==> q in held) && CountOf(holders, q) == held[q];
      assert held'[q] == if q == pid && held[q] > 0 then held[q] - 1 else held[q];
    }
  }

  class Semaphore {
    var count: nat
    var maxCount: nat
    var waitQueue: seq<nat>
    var holderCounts: map<nat, nat>
    var priorities: Priorities
    ghost var held: multiset<nat>

    ghost function State(): Units
      reads this
    {
      Units(count, maxCount, held, waitQueue)
    }

    ghost predicate Valid()
      reads this
    {
      && Orderly(State()) && Counted(holderCounts, held) && maxCount > 0
      && Known(priorities, holderCounts.Keys, waitQueue) && Exact(priorities, holderCounts.Keys, waitQueue)
    }

    constructor (initialCount: nat, max: nat)
      ensures Valid() && maxCount == Max(1, max)
      ensures State() == Units(Min(initialCount, maxCount), maxCount, multiset{}, [])
      ensures forall pid :: BaseOf(priorities, pid) == NORMAL
    {
      maxCount := Max(1, max);
      count := Min(initialCount, Max(1, max));
      waitQueue, holderCounts, priorities, held := [], map[], Priorities(map[], map[]), multiset{};
    }

    method RecomputePriorities()
      requires Orderly(State()) && Counted(holderCounts, held) && maxCount > 0
      requires Known(priorities, holderCounts.Keys, waitQueue)
      modifies this`priorities
      ensures Valid() && priorities.base == old(priorities.base)
    {
      priorities := Recompute(priorities, holderCounts.Keys, waitQueue);
    }

    method GiveTo(pid: nat)
      requires Counted(holderCounts, held)
      modifies this`holderCounts, this`held
      ensures Counted(holderCounts, held) && held == old(held) + multiset{pid}
      ensures holderCounts.Keys == old(holderCounts.Keys) + {pid}
    {
      holderCounts := holderCounts[pid := CountOf(holderCounts, pid) + 1];
      held := held + multiset{pid};
    }

    method TakeFrom(pid: nat)
      requires Counted(holderCounts, held)
      modifies this`holderCounts, this`held
      ensures Counted(holderCounts, held) && held == old(held) - multiset{pid} && holderCounts.Keys <= old(holderCounts.Keys)
    {
      hide Counted;
      OneLessCounted(holderCounts, held, pid);
      if pid in holderCounts {
        var n := holderCounts[pid];
        if n > 0 {
          n := n - 1;
        }
        if n == 0 {
          holderCounts := holderCounts - {pid};
        } else {
          holderCounts := holderCounts[pid := n];
        }
      }
      held := held - multiset{pid};
    }

    /** Takes a free unit, else queues. */
    method Acquire(pid: nat) returns (r: Result<()>)
      requires Valid()
      modifies this
      ensures Valid()
      ensures State() == After(old(State()), Op.Acquire(pid)) && r == Answer(old(State()), Op.Acquire(pid))
      ensures forall q :: BaseOf(priorities, q) == old(BaseOf(priorities, q))
    {
      hide Exact, Counted, Orderly;
      if pid == INVALID_PID {
        return Failure(InvalidPid);
      }
      AfterKeepsOrderly(State(), Op.Acquire(pid));
      priorities := Register(priorities, pid);
      if count > 0 {
        count := count - 1;
        GiveTo(pid);
        RecomputePriorities();
        return Success(());
      }
      if pid !in waitQueue {
        waitQueue := waitQueue + [pid];
      }
      RecomputePriorities();
      return Failure(ResourceBusy);
    }

    /** The first in line gets a unit. */
    method HandToFirst()
      requires Counted(holderCounts, held) && Known(priorities, holderCounts.Keys, waitQueue) && waitQueue != []
      modifies this`waitQueue, this`priorities, this`holderCounts, this`held
      ensures Counted(holderCounts, held) && Known(priorities, holderCounts.Keys, waitQueue)
      ensures waitQueue == old(waitQueue)[1..] && held == old(held) + multiset{old(waitQueue)[0]}
      ensures priorities == old(priorities)
    {
      hide Counted, Known, Register;
      FirstInLineIsKnown(priorities, holderCounts.Keys, waitQueue);
      var next := waitQueue[0];
      waitQueue := waitQueue[1..];
      priorities := Register(priorities, next);
      GiveTo(next);
    }

    /** Gives the unit to the first in line, else back to the count, which never passes its maximum. */
    method Release(pid: nat) returns (r: Result<()>)
      requires Valid()
      modifies this
      ensures Valid()
      ensures State() == After(old(State()), Op.Release(pid)) && r == Answer(old(State()), Op.Release(pid))
      ensures forall q :: BaseOf(priorities, q) == old(BaseOf(priorities, q))
    {
      hide Exact, Counted, Orderly, Known, Register;
      if pid == INVALID_PID {
        return Failure(InvalidPid);
      }
      AfterKeepsOrderly(State(), Op.Release(pid));
      RegisterKeepsKnown(priorities, pid, holderCounts.Keys, waitQueue);
      priorities := Register(priorities, pid);
      TakeFrom(pid);
      FewerAreKnown(priorities, old(holderCounts).Keys, holderCounts.Keys, waitQueue);
      if waitQueue != [] {
        HandToFirst();
        RecomputePriorities();
        return Success(());
      }
      if count >= maxCount {
        RecomputePriorities();
        return Failure(InvalidState);
      }
      count := count + 1;
      RecomputePriorities();
      return Success(());
    }

    method TryAcquire(pid: nat) returns (r: Result<()>)
      requires Valid()
      modifies this
      ensures Valid()
      ensures State() == After(old(State()), Op.TryAcquire(pid)) && r == Answer(old(State()), Op.TryAcquire(pid))
      ensures forall q :: BaseOf(priorities, q) == old(BaseOf(priorities, q))
    {
      hide Exact, Counted, Orderly;
      if pid == INVALID_PID {
        return Failure(InvalidPid);
      }
      AfterKeepsOrderly(State(), Op.TryAcquire(pid));
      RegisterKeepsExact(priorities, pid, holderCounts.Keys, waitQueue);
      priorities := Register(priorities, pid);
      if count == 0 {
        return Failure(ResourceBusy);
      }
      count := count - 1;
      GiveTo(pid);
      RecomputePriorities();
      return Success(());
    }

    method RegisterProcessPriority(pid: nat, base: Level) returns (r: Result<()>)
      requires Valid()
      modifies this`priorities
      ensures Valid() && (r.Success? <==> pid != INVALID_PID) && (r.Failure? ==> r.error == InvalidPid)
      ensures r.Failure? ==> priorities == old(priorities)
      ensures r.Success? ==> priorities.base == old(priorities.base)[pid := base]
    {
      hide Exact;
      if pid == INVALID_PID {
        return Failure(InvalidPid);
      }
      priorities := Priorities(priorities.base[pid := base], priorities.effective[pid := base]);
      RecomputePriorities();
      return Success(());
    }

    /** Every holder inherits from the line; everyone else has its own base priority. */
    method EffectivePriority(pid: nat) returns (level: Level)
      requires Valid()
      ensures pid in held ==> Inherits(priorities, pid, waitQueue, level)
      ensures pid !in held ==> level == BaseOf(priorities, pid)
    {
      return EffectiveOf(priorities, pid);
    }
  }
}
