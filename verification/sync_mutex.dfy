/** The reentrant mutex with first-come first-served hand-off and priority inheritance. */
module MutexLock {
  import opened Core
  import opened PriorityInheritance

  // ---------------------------------------------------------------- ownership

  /** Who owns the mutex, how deep, and who waits in line. */
  datatype Ownership = Ownership(owner: Option<nat>, depth: nat, queue: seq<nat>)

  function Holders(s: Ownership): set<nat> {
    if s.owner.Some? then {s.owner.value} else {}
  }

  /** An unowned mutex has no line; nobody is in line twice or while being the owner. */
  ghost predicate Orderly(s: Ownership) {
    && (s.owner.None? ==> s.depth == 0 && s.queue == [])
    && (s.owner.Some? ==> s.depth > 0 && s.owner.value != INVALID_PID && s.owner.value !in s.queue)
    && INVALID_PID !in s.queue
    && forall i, j | 0 <= i < j < |s.queue| :: s.queue[i] != s.queue[j]
  }

  datatype Op = Acquire(pid: nat) | TryAcquire(pid: nat) | Release(pid: nat)

  /** What an operation answers. */
  function Answer(s: Ownership, op: Op): Result<()> {
    match op
    case Acquire(pid) =>
      if pid == INVALID_PID then Failure(InvalidPid)
      else if s.owner == None || s.owner == Some(pid) then Success(()) else Failure(ResourceBusy)
    case TryAcquire(pid) =>
      if pid == INVALID_PID then Failure(InvalidPid)
      else if s.owner == None || s.owner == Some(pid) then Success(()) else Failure(ResourceBusy)
    case Release(pid) =>
      if s.owner == None then Failure(InvalidState)
      else if s.owner == Some(pid) then Success(()) else Failure(PermissionDenied)
  }

  /** Whom a release that gives the mutex up hands it to. */
  function HandOff(queue: seq<nat>): Ownership {
    if queue == [] then Ownership(None, 0, []) else Ownership(Some(queue[0]), 1, queue[1..])
  }

  function After(s: Ownership, op: Op): Ownership {
    match op
    case Acquire(pid) =>
      if pid == INVALID_PID then s
      else if s.owner == None then s.(owner := Some(pid), depth := 1)
      else if s.owner == Some(pid) then s.(depth := s.depth + 1)
      else if pid in s.queue then s
      else s.(queue := s.queue + [pid])
    case TryAcquire(pid) =>
      if pid == INVALID_PID then s
      else if s.owner == None then s.(owner := Some(pid), depth := 1)
      else if s.owner == Some(pid) then s.(depth := s.depth + 1)
      else s
    case Release(pid) =>
      if s.owner == None || s.owner != Some(pid) then s
      else if s.depth > 1 then s.(depth := s.depth - 1)
      else HandOff(s.queue)
  }

  lemma AfterKeepsOrderly(s: Ownership, op: Op)
    requires Orderly(s)
    ensures Orderly(After(s, op))
  {
  }

  // ---------------------------------------------------------------- runs

  /** The new owner an operation brings, if any. */
  function GrantOf(s: Ownership, op: Op): seq<nat> {
    var s' := After(s, op);
    if s'.owner.Some? && s'.owner != s.owner then [s'.owner.value] else []
  }

  function RunOf(s: Ownership, ops: seq<Op>): Ownership
    decreases |ops|
  {
    if ops == [] then s else RunOf(After(s, ops[0]), ops[1..])
  }

  /** The owners of the mutex in a run, in order, after the first. */
  function Grants(s: Ownership, ops: seq<Op>): seq<nat>
    decreases |ops|
  {
    if ops == [] then [] else GrantOf(s, ops[0]) + Grants(After(s, ops[0]), ops[1..])
  }

  lemma StepServesInOrder(s: Ownership, op: Op)
    requires Orderly(s)
    ensures ServedInOrder(s.queue, GrantOf(s, op), After(s, op).queue)
  {
  }

  /** How often in a run an owner lets go of the mutex. */
  function LettingsGo(s: Ownership, ops: seq<Op>): nat
    decreases |ops|
  {
    if ops == [] then 0
    else
      (if ops[0].Release? && s.owner == Some(ops[0].pid) && s.depth <= 1 then 1 else 0) +
      LettingsGo(After(s, ops[0]), ops[1..])
  }

  /**
   Nobody overtakes and nobody is forgotten: whatever is called, the line is served from its
   head, and each time an owner lets go the next one gets the mutex.
   */
  lemma {:induction false} NoOvertaking(s: Ownership, ops: seq<Op>)
    requires Orderly(s)
    ensures Orderly(RunOf(s, ops)) && ServedInOrder(s.queue, Grants(s, ops), RunOf(s, ops).queue)
    ensures |Grants(s, ops)| >= Min(LettingsGo(s, ops), |s.queue|)
    decreases |ops|
  {
    if ops != [] {
      var s' := After(s, ops[0]);
      AfterKeepsOrderly(s, ops[0]);
      StepServesInOrder(s, ops[0]);
      NoOvertaking(s', ops[1..]);
      ServedInOrderComposes(s.queue, GrantOf(s, ops[0]), s'.queue, Grants(s', ops[1..]), RunOf(s, ops).queue);
    }
  }

  /** From depth `n`, the owner lets go with its `n`-th release. */
  lemma {:induction false} ReleasesUndoAcquires(s: Ownership, pid: nat, n: nat)
    requires Orderly(s) && s.owner == Some(pid) && s.depth == n
    ensures RunOf(s, seq(n, _ => Release(pid))) == HandOff(s.queue)
    decreases n
  {
    var ops := seq(n, _ => Release(pid));
    assert ops[1..] == seq(n - 1, _ => Release(pid));
    if n > 1 {
      ReleasesUndoAcquires(s.(depth := n - 1), pid, n - 1);
    } else {
      assert ops[1..] == [];
    }
  }

  // ---------------------------------------------------------------- what callers are told, and what for

  /**
   An acquire of either kind succeeds exactly for a free mutex or one that the caller owns, and
   then the caller owns it; a busy one leaves the owner alone. Only `Acquire` joins the line, at
   its end and once. Only the owner's release succeeds; any other one changes nothing.
   */
  lemma AnswerTells(s: Ownership, op: Op)
    requires Orderly(s)
    ensures var s', r := After(s, op), Answer(s, op);
            if op.Release? then
              && (r.Success? <==> s.owner == Some(op.pid))
              && (r.Failure? ==> s' == s && r.error == if s.owner.None? then InvalidState else PermissionDenied)
            else
              && (r.Success? <==> op.pid != INVALID_PID && s'.owner == Some(op.pid))
              && (r.Success? <==> op.pid != INVALID_PID && (s.owner.None? || s.owner == Some(op.pid)))
              && (r.Success? ==> s'.queue == s.queue)
              && (r.Failure? ==> s'.owner == s.owner && s'.depth == s.depth &&
                                 r.error == if op.pid == INVALID_PID then InvalidPid else ResourceBusy)
              && (r.Failure? ==> s'.queue == s.queue + Joins(s, op))
  {
  }

  /** Who joins the line: the caller of a busy `Acquire` that is not in line yet. */
  function Joins(s: Ownership, op: Op): seq<nat> {
    if op.Acquire? && Answer(s, op) == Failure(ResourceBusy) && op.pid !in s.queue then [op.pid] else []
  }

  function AllJoins(s: Ownership, ops: seq<Op>): seq<nat>
    decreases |ops|
  {
    if ops == [] then [] else Joins(s, ops[0]) + AllJoins(After(s, ops[0]), ops[1..])
  }

  /** To whom a release hands the mutex. */
  function HandsTo(s: Ownership, op: Op): seq<nat> {
    if op.Release? then GrantOf(s, op) else []
  }

  function AllHandsTo(s: Ownership, ops: seq<Op>): seq<nat>
    decreases |ops|
  {
    if ops == [] then [] else HandsTo(s, ops[0]) + AllHandsTo(After(s, ops[0]), ops[1..])
  }

  lemma StepConservesLine(s: Ownership, op: Op)
    requires Orderly(s)
    ensures s.queue + Joins(s, op) == HandsTo(s, op) + After(s, op).queue
  {
  }

  /** Over every run, those in line at first and those who join it are those served by releases and those still in line. */
  lemma {:induction false} LineIsConserved(s: Ownership, ops: seq<Op>)
    requires Orderly(s)
    ensures s.queue + AllJoins(s, ops) == AllHandsTo(s, ops) + RunOf(s, ops).queue
    decreases |ops|
  {
    hide Orderly, After, Answer, Joins, HandsTo;
    if ops != [] {
      var s' := After(s, ops[0]);
      AfterKeepsOrderly(s, ops[0]);
      StepConservesLine(s, ops[0]);
      LineIsConserved(s', ops[1..]);
      var joins, hands := AllJoins(s', ops[1..]), AllHandsTo(s', ops[1..]);
      calc {
        s.queue + (Joins(s, ops[0]) + joins);
        (s.queue + Joins(s, ops[0])) + joins;
        (HandsTo(s, ops[0]) + s'.queue) + joins;
        HandsTo(s, ops[0]) + (s'.queue + joins);
        HandsTo(s, ops[0]) + (hands + RunOf(s, ops).queue);
        (HandsTo(s, ops[0]) + hands) + RunOf(s, ops).queue;
      }
    }
  }

  // ---------------------------------------------------------------- acquires and releases are counted

  function DepthOf(s: Ownership, pid: nat): nat {
    if s.owner == Some(pid) then s.depth else 0
  }

  /** How often `pid` gets the mutex, by its own call or from an owner that lets go. */
  function Gains(s: Ownership, ops: seq<Op>, pid: nat): nat
    decreases |ops|
  {
    if ops == [] then 0 else Gained(s, ops[0], pid) + Gains(After(s, ops[0]), ops[1..], pid)
  }

  function Gained(s: Ownership, op: Op, pid: nat): nat {
    if op.Release? then (if HandsTo(s, op) == [pid] then 1 else 0)
    else if op.pid == pid && Answer(s, op).Success? then 1 else 0
  }

  /** How often a release by `pid` succeeds. */
  function Losses(s: Ownership, ops: seq<Op>, pid: nat): nat
    decreases |ops|
  {
    if ops == [] then 0 else Lost(s, ops[0], pid) + Losses(After(s, ops[0]), ops[1..], pid)
  }

  function Lost(s: Ownership, op: Op, pid: nat): nat {
    if op == Release(pid) && Answer(s, op).Success? then 1 else 0
  }

  lemma StepIsCounted(s: Ownership, op: Op, pid: nat)
    requires Orderly(s)
    ensures DepthOf(After(s, op), pid) == DepthOf(s, pid) + Gained(s, op, pid) - Lost(s, op, pid)
  {
  }

  lemma OwnersHaveDepth(s: Ownership, pid: nat)
    requires Orderly(s)
    ensures s.owner == Some(pid) <==> DepthOf(s, pid) > 0
  {
  }

  /** Over every run, a process owns the mutex exactly as many times as it got it more often than it released it. */
  lemma {:induction false} DepthIsCounted(s: Ownership, ops: seq<Op>, pid: nat)
    requires Orderly(s)
    ensures Orderly(RunOf(s, ops))
    ensures DepthOf(RunOf(s, ops), pid) == DepthOf(s, pid) + Gains(s, ops, pid) - Losses(s, ops, pid)
    ensures RunOf(s, ops).owner == Some(pid) <==> DepthOf(s, pid) + Gains(s, ops, pid) > Losses(s, ops, pid)
    decreases |ops|
  {
    hide Orderly, After, DepthOf, Gained, Lost;
    OwnersHaveDepth(s, pid);
    if ops != [] {
      AfterKeepsOrderly(s, ops[0]);
      StepIsCounted(s, ops[0], pid);
      DepthIsCounted(After(s, ops[0]), ops[1..], pid);
    }
  }

  /** The calls of a kind that `pid` makes, whatever they answer. */
  function Takes(ops: seq<Op>, pid: nat): nat {
    if ops == [] then 0
    else Takes(ops[..|ops| - 1], pid) + (if ops[|ops| - 1] in {Acquire(pid), TryAcquire(pid)} then 1 else 0)
  }

  function Gives(ops: seq<Op>, pid: nat): nat {
    if ops == [] then 0 else Gives(ops[..|ops| - 1], pid) + (if ops[|ops| - 1] == Release(pid) then 1 else 0)
  }

  /** From its first call on, `pid` has acquired more often than released. */
  ghost predicate Outstanding(ops: seq<Op>, pid: nat) {
    forall n | 1 <= n <= |ops| :: Gives(ops[..n], pid) < Takes(ops[..n], pid)
  }

  /** Those other than `pid` that call `Acquire`, each in the place of its first call. */
  function Callers(ops: seq<Op>, pid: nat): seq<nat> {
    if ops == [] then []
    else
      var line, op := Callers(ops[..|ops| - 1], pid), ops[|ops| - 1];
      if op.Acquire? && op.pid != pid && op.pid != INVALID_PID && op.pid !in line then line + [op.pid] else line
  }

  lemma {:induction false} RunEndsWith(s: Ownership, ops: seq<Op>)
    requires ops != []
    ensures RunOf(s, ops) == After(RunOf(s, ops[..|ops| - 1]), ops[|ops| - 1])
    decreases |ops|
  {
    if |ops| > 1 {
      RunEndsWith(After(s, ops[0]), ops[1..]);
      assert ops[1..][..|ops| - 2] == ops[..|ops| - 1][1..];
    }
  }

  /**
   A process that takes a free mutex owns it as long as its acquires outnumber its releases,
   whatever the others call meanwhile; they line up in the order of their first acquires.
   */
  lemma {:induction false} OwnedWhileOutstanding(s: Ownership, ops: seq<Op>, pid: nat)
    requires Orderly(s) && s.owner.None? && pid != INVALID_PID && ops != [] && Outstanding(ops, pid)
    ensures Gives(ops, pid) < Takes(ops, pid)
    ensures RunOf(s, ops) == Ownership(Some(pid), Takes(ops, pid) - Gives(ops, pid), Callers(ops, pid))
    decreases |ops|
  {
    hide Orderly;
    var front := ops[..|ops| - 1];
    assert ops[..|ops|] == ops;
    RunEndsWith(s, ops);
    if front == [] {
      FreeIsEmpty(s);
    } else {
      forall n | 1 <= n <= |front|
        ensures Gives(front[..n], pid) < Takes(front[..n], pid)
      {
        assert front[..n] == ops[..n];
      }
      OwnedWhileOutstanding(s, front, pid);
    }
  }

  lemma FreeIsEmpty(s: Ownership)
    requires Orderly(s) && s.owner.None?
    ensures s == Ownership(None, 0, [])
  {
  }

  /** With as many releases as acquires the mutex goes to the first of those who called for it, if any. */
  lemma LastReleaseHandsOver(s: Ownership, ops: seq<Op>, pid: nat)
    requires Orderly(s) && s.owner.None? && pid != INVALID_PID && ops != [] && Outstanding(ops, pid)
    requires Gives(ops, pid) + 1 == Takes(ops, pid)
    ensures var line := Callers(ops, pid);
            RunOf(s, ops + [Release(pid)]) ==
            if line == [] then Ownership(None, 0, []) else Ownership(Some(line[0]), 1, line[1..])
  {
    assert (ops + [Release(pid)])[..|ops|] == ops;
    RunEndsWith(s, ops + [Release(pid)]);
    OwnedWhileOutstanding(s, ops, pid);
  }

  // ---------------------------------------------------------------- the mutex

  class Mutex {
    var owner: Option<nat>
    var recursionDepth: nat
    var waitQueue: seq<nat>
    var priorities: Priorities

    ghost function State(): Ownership
      reads this
    {
      Ownership(owner, recursionDepth, waitQueue)
    }

    /** The line is orderly and the effective priorities are exact. */
    ghost predicate Valid()
      reads this
    {
      && Orderly(State())
      && Known(priorities, Holders(State()), waitQueue) && Exact(priorities, Holders(State()), waitQueue)
    }

    constructor ()
      ensures Valid() && State() == Ownership(None, 0, [])
      ensures forall pid :: BaseOf(priorities, pid) == NORMAL
    {
      owner, recursionDepth, waitQueue, priorities := None, 0, [], Priorities(map[], map[]);
    }

    method RecomputePriorities()
      requires Orderly(State()) && Known(priorities, Holders(State()), waitQueue)
      modifies this`priorities
      ensures Valid() && priorities.base == old(priorities.base)
    {
      var holders := if owner.Some? then {owner.value} else {};
      priorities := Recompute(priorities, holders, waitQueue);
    }

    /** Queues behind a foreign owner; takes a free mutex; goes deeper into its own. */
    method Acquire(pid: nat) returns (r: Result<()>)
      requires Valid()
      modifies this
      ensures Valid()
      ensures State() == After(old(State()), Op.Acquire(pid)) && r == Answer(old(State()), Op.Acquire(pid))
      ensures forall q :: BaseOf(priorities, q) == old(BaseOf(priorities, q))
    {
      hide Exact;
      if pid == INVALID_PID {
        return Failure(InvalidPid);
      }
      AfterKeepsOrderly(State(), Op.Acquire(pid));
      RegisterKeepsExact(priorities, pid, Holders(State()), waitQueue);
      priorities := Register(priorities, pid);
      if owner.None? {
        owner, recursionDepth := Some(pid), 1;
        RecomputePriorities();
        return Success(());
      }
      if owner.value == pid {
        recursionDepth := recursionDepth + 1;
        return Success(());
      }
      if pid !in waitQueue {
        waitQueue := waitQueue + [pid];
      }
      RecomputePriorities();
      return Failure(ResourceBusy);
    }

    method TryAcquire(pid: nat) returns (r: Result<()>)
      requires Valid()
      modifies this
      ensures Valid()
      ensures State() == After(old(State()), Op.TryAcquire(pid)) && r == Answer(old(State()), Op.TryAcquire(pid))
      ensures forall q :: BaseOf(priorities, q) == old(BaseOf(priorities, q))
    {
      hide Exact;
      if pid == INVALID_PID {
        return Failure(InvalidPid);
      }
      AfterKeepsOrderly(State(), Op.TryAcquire(pid));
      RegisterKeepsExact(priorities, pid, Holders(State()), waitQueue);
      priorities := Register(priorities, pid);
      if owner.None? {
        owner, recursionDepth := Some(pid), 1;
        RecomputePriorities();
        return Success(());
      }
      if owner.value == pid {
        recursionDepth := recursionDepth + 1;
        RecomputePriorities();
        return Success(());
      }
      return Failure(ResourceBusy);
    }

    /** Hands the mutex to the first in line once the owner has released as often as acquired. */
    method Release(pid: nat) returns (r: Result<()>)
      requires Valid()
      modifies this
      ensures Valid()
      ensures State() == After(old(State()), Op.Release(pid)) && r == Answer(old(State()), Op.Release(pid))
      ensures priorities.base == old(priorities.base)
    {
      hide Exact;
      if owner.None? {
        return Failure(InvalidState);
      }
      if owner.value != pid {
        return Failure(PermissionDenied);
      }
      AfterKeepsOrderly(State(), Op.Release(pid));
      if recursionDepth > 1 {
        recursionDepth := recursionDepth - 1;
        RecomputePriorities();
        return Success(());
      }
      owner, recursionDepth := None, 0;
      if waitQueue != [] {
        owner, waitQueue, recursionDepth := Some(waitQueue[0]), waitQueue[1..], 1;
      }
      RecomputePriorities();
      return Success(());
    }

    method RegisterProcessPriority(pid: nat, base: Level) returns (r: Result<()>)
      requires Valid()
      modifies this`priorities
      ensures Valid() && (r.Success? <==> pid != INVALID_PID) && (r.Failure? ==> r.error == InvalidPid)
      ensures r.Failure? ==> priorities == old(priorities)
      ensures r.Success? ==> priorities.base == old(priorities.base)[pid := base]
    {
      hide Exact;
      if pid == INVALID_PID {
        return Failure(InvalidPid);
      }
      priorities := Priorities(priorities.base[pid := base], priorities.effective[pid := base]);
      RecomputePriorities();
      return Success(());
    }

    /** The owner's priority is the best of its own and the waiters'; everyone else's is its own. */
    method EffectivePriority(pid: nat) returns (level: Level)
      requires Valid()
      ensures owner == Some(pid) ==> Inherits(priorities, pid, waitQueue, level)
      ensures owner != Some(pid) ==> level == BaseOf(priorities, pid)
    {
      return EffectiveOf(priorities, pid);
    }
  }
}
