/** Priority inheritance, shared by the mutex and the semaphore, and first-come first-served queues. */
module PriorityInheritance {
  import opened Core

  /** From realtime (0) to idle (6): a smaller number is a higher priority. */
  type Level = l: int | 0 <= l <= 6

  const NORMAL: Level := 3

  datatype Priorities = Priorities(base: map<nat, Level>, effective: map<nat, Level>)

  function BaseOf(p: Priorities, pid: nat): Level {
    if pid in p.base then p.base[pid] else NORMAL
  }

  function EffectiveOf(p: Priorities, pid: nat): Level {
    if pid in p.effective then p.effective[pid] else BaseOf(p, pid)
  }

  /** `level` is the best of the process's own base priority and those of the waiters. */
  ghost predicate Inherits(p: Priorities, pid: nat, queue: seq<nat>, level: Level) {
    && level <= BaseOf(p, pid)
    && (forall w | w in queue :: level <= BaseOf(p, w))
    && (level == BaseOf(p, pid) || exists w :: w in queue && level == BaseOf(p, w))
  }

  ghost predicate Known(p: Priorities, holders: set<nat>, queue: seq<nat>) {
    && p.base.Keys == p.effective.Keys
    && holders <= p.base.Keys && forall w | w in queue :: w in p.base
  }

  /** Holders inherit from the waiters; everyone else, known or not, has its own base priority. */
  ghost predicate Exact(p: Priorities, holders: set<nat>, queue: seq<nat>) {
    forall pid :: if pid in holders then Inherits(p, pid, queue, EffectiveOf(p, pid))
                  else EffectiveOf(p, pid) == BaseOf(p, pid)
  }

  predicate IsHigher(a: Level, b: Level) {
    a < b
  }

  /** A process without a priority gets the normal one. */
  function Register(p: Priorities, pid: nat): (p': Priorities)
    ensures forall q :: BaseOf(p', q) == BaseOf(p, q)
    ensures p.base.Keys == p.effective.Keys ==> p'.base.Keys == p'.effective.Keys
    ensures p.base.Keys <= p'.base.Keys && (pid != INVALID_PID ==> pid in p'.base)
    ensures pid in p.base && p.base.Keys == p.effective.Keys ==> p' == p
  {
    if pid == INVALID_PID then p
    else
      var base := if pid in p.base then p.base else p.base[pid := NORMAL];
      Priorities(base, if pid in p.effective then p.effective else p.effective[pid := base[pid]])
  }

  /** Nobody's priority depends on whether a newcomer is registered. */
  lemma RegisterKeepsExact(p: Priorities, pid: nat, holders: set<nat>, queue: seq<nat>)
    requires Known(p, holders, queue) && Exact(p, holders, queue)
    ensures Known(Register(p, pid), holders, queue) && Exact(Register(p, pid), holders, queue)
  {
    var p' := Register(p, pid);
    forall q
      ensures if q in holders then Inherits(p', q, queue, EffectiveOf(p', q)) else EffectiveOf(p', q) == BaseOf(p', q)
    {
      assert EffectiveOf(p', q) == EffectiveOf(p, q);
      assert q in holders ==> Inherits(p, q, queue, EffectiveOf(p, q));
    }
  }

  lemma RegisterKeepsKnown(p: Priorities, pid: nat, holders: set<nat>, queue: seq<nat>)
    requires Known(p, holders, queue)
    ensures Known(Register(p, pid), holders, queue)
  {
  }

  lemma FewerAreKnown(p: Priorities, holders: set<nat>, holders': set<nat>, queue: seq<nat>)
    requires Known(p, holders, queue) && holders' <= holders
    ensures Known(p, holders', queue)
  {
  }

  lemma FirstInLineIsKnown(p: Priorities, holders: set<nat>, queue: seq<nat>)
    requires Known(p, holders, queue) && queue != []
    ensures Known(p, holders + {queue[0]}, queue[1..]) && Register(p, queue[0]) == p
  {
  }

  method ResetToBase(p: Priorities) returns (p': Priorities)
    requires p.base.Keys == p.effective.Keys
    ensures p' == Priorities(p.base, p.base)
  {
    p' := p;
    var rest := p.base.Keys;
    while rest != {}
      invariant rest <= p.base.Keys && p'.base == p.base && p'.effective.Keys == p.base.Keys
      invariant forall pid | pid in p.base.Keys - rest :: p'.effective[pid] == p.base[pid]
      decreases rest
    {
      var pid :| pid in rest;
      rest := rest - {pid};
      p' := p'.(effective := p'.effective[pid := p.base[pid]]);
    }
    assert p'.effective == p.base;
  }

  /** The best priority among the waiters. */
  method HighestOf(p: Priorities, queue: seq<nat>) returns (best: Level)
    requires queue != [] && p.effective == p.base && forall w | w in queue :: w in p.base
    ensures forall w | w in queue :: best <= BaseOf(p, w)
    ensures exists w :: w in queue && best == BaseOf(p, w)
  {
    var found := None;
    for i := 0 to |queue|
      invariant found.None? <==> i == 0
      invariant found.Some? ==>
                  && (forall w | w in queue[..i] :: found.value <= BaseOf(p, w))
                  && exists w :: w in queue[..i] && found.value == BaseOf(p, w)
    {
      assert queue[..i + 1] == queue[..i] + [queue[i]];
      var level := EffectiveOf(p, queue[i]);
      if found.None? || IsHigher(level, found.value) {
        assert queue[i] in queue[..i + 1];
        found := Some(level);
      }
    }
    assert queue[..|queue|] == queue;
    best := found.value;
  }

  /** Recomputes all effective priorities; the holders are visited in any order. */
  method Recompute(p: Priorities, holders: set<nat>, queue: seq<nat>) returns (p': Priorities)
    requires Known(p, holders, queue)
    ensures p'.base == p.base && Known(p', holders, queue) && Exact(p', holders, queue)
  {
    p' := ResetToBase(p);
    if queue == [] {
      return;
    }
    var best := HighestOf(p', queue);
    var rest := holders;
    while rest != {}
      invariant rest <= holders && p'.base == p.base && Known(p', holders, queue)
      invariant forall pid | pid in p.base ::
          p'.effective[pid] == if pid in holders - rest && best < p.base[pid] then best else p.base[pid]
      decreases rest
    {
      var pid :| pid in rest;
      rest := rest - {pid};
      if IsHigher(best, EffectiveOf(p', pid)) {
        p' := p'.(effective := p'.effective[pid := best]);
      }
    }
    RaisedIsExact(p, p', holders, queue, best);
  }

  lemma RaisedIsExact(p: Priorities, p': Priorities, holders: set<nat>, queue: seq<nat>, best: Level)
    requires Known(p', holders, queue) && p'.base == p.base
    requires forall w | w in queue :: best <= BaseOf(p, w)
    requires exists w :: w in queue && best == BaseOf(p, w)
    requires forall pid | pid in p.base ::
               p'.effective[pid] == if pid in holders && best < p.base[pid] then best else p.base[pid]
    ensures Exact(p', holders, queue)
  {
    var w :| w in queue && best == BaseOf(p, w);
    forall pid
      ensures if pid in holders then Inherits(p', pid, queue, EffectiveOf(p', pid))
              else EffectiveOf(p', pid) == BaseOf(p', pid)
    {
      assert best == BaseOf(p', w);
      assert forall v :: BaseOf(p', v) == BaseOf(p, v);
    }
  }

  /** There is only one exact assignment of effective priorities. */
  lemma ExactIsUnique(p: Priorities, p': Priorities, holders: set<nat>, queue: seq<nat>, pid: nat)
    requires p.base == p'.base && Exact(p, holders, queue) && Exact(p', holders, queue)
    ensures EffectiveOf(p, pid) == EffectiveOf(p', pid)
  {
    assert forall v :: BaseOf(p', v) == BaseOf(p, v);
    if pid in holders {
      assert Inherits(p, pid, queue, EffectiveOf(p, pid)) && Inherits(p', pid, queue, EffectiveOf(p', pid));
    }
  }

  // ---------------------------------------------------------------- first come, first served

  /**
   Those in `queue` have been served in order before anyone else: the grants are a first part of
   the queue, whose rest is still at the head of the line, or go on after the whole queue.
   */
  ghost predicate ServedInOrder(queue: seq<nat>, grants: seq<nat>, queue': seq<nat>) {
    if |grants| <= |queue| then grants == queue[..|grants|] && queue[|grants|..] <= queue'
    else queue <= grants
  }

  lemma ServedInOrderComposes(q: seq<nat>, g: seq<nat>, q1: seq<nat>, g1: seq<nat>, q2: seq<nat>)
    requires ServedInOrder(q, g, q1) && ServedInOrder(q1, g1, q2)
    ensures ServedInOrder(q, g + g1, q2)
  {
    if |g| <= |q| {
      var rest := q[|g|..];
      assert q == g + rest;
      assert rest == q1[..|rest|];
      if |g| + |g1| <= |q| {
        assert g1 == rest[..|g1|];
        assert q[|g + g1|..] == rest[|g1|..];
        assert rest[|g1|..] == q1[|g1|..][..|rest| - |g1|];
      } else {
        assert rest == g1[..|rest|];
        assert q == (g + g1)[..|q|];
      }
    } else {
      assert q == (g + g1)[..|q|];
    }
  }
}
