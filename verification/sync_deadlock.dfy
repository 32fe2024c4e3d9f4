/**
 The deadlock detector. Its state is described by the history of calls it has seen: who owned
 what when somebody began to wait, and which locks a thread held when it took another.
 */
module DeadlockDetection {
  import opened Core
  import opened Graphs

  datatype WaitNode = WaitNode(pid: nat, thread: nat)

  datatype Call =
    | Acquire(node: WaitNode, resource: nat)
    | Release(node: WaitNode, resource: nat)
    | Wait(node: WaitNode, resource: nat)
    | LockAcquire(thread: nat, lock: nat)
    | LockRelease(thread: nat, lock: nat)

  type History = seq<Call>

  // ---------------------------------------------------------------- waiting, in terms of the history

  /** `m` acquired the resource and has not released it since. */
  ghost predicate Owns(h: History, m: WaitNode, resource: nat) {
    m.pid != INVALID_PID &&
    exists i :: 0 <= i < |h| && h[i] == Acquire(m, resource) &&
                forall j | i < j < |h| :: h[j] != Release(m, resource)
  }

  /** Call `c` ends the wait of `n`, or starts another. */
  predicate EndsWait(c: Call, n: WaitNode) {
    (c.Acquire? || c.Wait?) && c.node == n
  }

  /** At call `i`, `n` began a wait that has not ended. */
  ghost predicate WaitsSince(h: History, n: WaitNode, i: nat) {
    && n.pid != INVALID_PID
    && i < |h| && h[i].Wait? && h[i].node == n
    && forall j | i < j < |h| :: !EndsWait(h[j], n)
  }

  /** `n` is waiting for a resource that `m` owned when the wait began. */
  ghost predicate WaitsFor(h: History, n: WaitNode, m: WaitNode) {
    n != m && exists i: nat :: WaitsSince(h, n, i) && Owns(h[..i], m, h[i].resource)
  }

  ghost predicate Chain(h: History, p: seq<WaitNode>) {
    forall i | 0 <= i < |p| - 1 :: WaitsFor(h, p[i], p[i + 1])
  }

  /** `n` waits, through others, for itself. */
  ghost predicate WaitsInCircle(h: History, n: WaitNode) {
    exists p :: |p| >= 2 && Chain(h, p) && p[0] == n && p[|p| - 1] == n
  }

  // ---------------------------------------------------------------- lock order, in terms of the history

  /** How often the thread has taken the lock and not given it back. */
  ghost function Holding(h: History, thread: nat, lock: nat): nat {
    if h == [] then 0
    else
      var n := |h| - 1;
      var before := Holding(h[..n], thread, lock);
      if h[n] == LockAcquire(thread, lock) then before + 1
      else if h[n] == LockRelease(thread, lock) && before > 0 then before - 1
      else before
  }

  /** At call `i`, a thread took `b` while it held another lock `a`. */
  ghost predicate TakenUnder(h: History, a: nat, b: nat, i: nat) {
    i < |h| && h[i].LockAcquire? && h[i].lock == b && a != b && Holding(h[..i], h[i].thread, a) > 0
  }

  ghost predicate Taken(h: History, a: nat, b: nat) {
    exists i: nat :: TakenUnder(h, a, b, i)
  }

  /** Every lock is taken only under locks of lower rank. */
  ghost predicate Disciplined(h: History, rank: nat -> int) {
    forall i: nat, a, b | TakenUnder(h, a, b, i) :: rank(a) < rank(b)
  }

  // ---------------------------------------------------------------- one more call

  lemma OwnsAfter(h: History, c: Call, m: WaitNode, resource: nat)
    ensures Owns(h + [c], m, resource) <==>
            (c == Acquire(m, resource) && m.pid != INVALID_PID) || (Owns(h, m, resource) && c != Release(m, resource))
  {
    var h' := h + [c];
    assert h'[|h|] == c && h' == h + [c];
    if Owns(h, m, resource) && c != Release(m, resource) {
      var i :| 0 <= i < |h| && h[i] == Acquire(m, resource) && forall j | i < j < |h| :: h[j] != Release(m, resource);
      assert h'[i] == Acquire(m, resource);
    }
    if Owns(h', m, resource) && c != Acquire(m, resource) {
      var i :| 0 <= i < |h'| && h'[i] == Acquire(m, resource) && forall j | i < j < |h'| :: h'[j] != Release(m, resource);
      assert h[i] == h'[i];
      assert forall j | i < j < |h| :: h[j] == h'[j];
    }
  }

  lemma WaitsForAfter(h: History, c: Call, n: WaitNode, m: WaitNode)
    ensures WaitsFor(h + [c], n, m) <==>
            if c.Wait? && c.node == n && n.pid != INVALID_PID then n != m && Owns(h, m, c.resource)
            else WaitsFor(h, n, m) && !EndsWait(c, n)
  {
    var h' := h + [c];
    assert h'[..|h|] == h;
    forall i | 0 <= i < |h|
      ensures h'[i] == h[i] && h'[..i] == h[..i] && (WaitsSince(h', n, i) <==> WaitsSince(h, n, i) && !EndsWait(c, n))
    {
      assert h'[|h|] == c;
      assert forall j | 0 <= j < |h| :: h'[j] == h[j];
    }
    if WaitsFor(h', n, m) {
      var i: nat :| WaitsSince(h', n, i) && Owns(h'[..i], m, h'[i].resource);
      assert i < |h'|;
      if i == |h| {
        assert h'[i] == c;
      } else {
        assert WaitsSince(h, n, i) && Owns(h[..i], m, h[i].resource);
        assert h'[|h|] == c;
      }
    }
    if c.Wait? && c.node == n && n.pid != INVALID_PID {
      assert WaitsSince(h', n, |h|) && h'[|h|] == c;
    } else if WaitsFor(h, n, m) && !EndsWait(c, n) {
      var i: nat :| WaitsSince(h, n, i) && Owns(h[..i], m, h[i].resource);
      assert WaitsSince(h', n, i) && h'[..i] == h[..i];
    }
  }

  lemma TakenAfter(h: History, c: Call, a: nat, b: nat)
    ensures Taken(h + [c], a, b) <==>
            Taken(h, a, b) ||
            (c.LockAcquire? && c.lock == b && a != b && Holding(h, c.thread, a) > 0)
  {
    var h' := h + [c];
    assert h'[..|h|] == h && h'[|h|] == c;
    forall i | 0 <= i < |h|
      ensures h'[i] == h[i] && h'[..i] == h[..i] && (TakenUnder(h', a, b, i) <==> TakenUnder(h, a, b, i))
    {
    }
    if i: nat :| TakenUnder(h', a, b, i) {
      assert i < |h| ==> TakenUnder(h, a, b, i);
      assert i == |h| ==> h'[..i] == h;
    }
    if i: nat :| TakenUnder(h, a, b, i) {
      assert TakenUnder(h', a, b, i);
    }
    if c.LockAcquire? && c.lock == b && a != b && Holding(h, c.thread, a) > 0 {
      assert TakenUnder(h', a, b, |h|);
    }
  }

  /** Calls about locks say nothing about waiting. */
  lemma LockCallKeepsWaiting(h: History, c: Call)
    requires c.LockAcquire? || c.LockRelease?
    ensures forall m, r :: Owns(h + [c], m, r) <==> Owns(h, m, r)
    ensures forall n, m :: WaitsFor(h + [c], n, m) <==> WaitsFor(h, n, m)
  {
    forall m, r
      ensures Owns(h + [c], m, r) <==> Owns(h, m, r)
    {
      OwnsAfter(h, c, m, r);
    }
    forall n, m
      ensures WaitsFor(h + [c], n, m) <==> WaitsFor(h, n, m)
    {
      WaitsForAfter(h, c, n, m);
    }
  }

  lemma HoldingAfter(h: History, c: Call, t: nat, l: nat)
    ensures Holding(h + [c], t, l) ==
            if c == LockAcquire(t, l) then Holding(h, t, l) + 1
            else if c == LockRelease(t, l) && Holding(h, t, l) > 0 then Holding(h, t, l) - 1
            else Holding(h, t, l)
  {
    assert (h + [c])[..|h|] == h;
  }

  /** Calls about resources say nothing about lock order. */
  lemma ResourceCallKeepsOrder(h: History, c: Call)
    requires c.Acquire? || c.Release? || c.Wait?
    ensures forall t, l :: Holding(h + [c], t, l) == Holding(h, t, l)
    ensures forall a, b :: Taken(h + [c], a, b) <==> Taken(h, a, b)
  {
    forall t, l
      ensures Holding(h + [c], t, l) == Holding(h, t, l)
    {
      HoldingAfter(h, c, t, l);
    }
    forall a, b
      ensures Taken(h + [c], a, b) <==> Taken(h, a, b)
    {
      TakenAfter(h, c, a, b);
    }
  }

  // ---------------------------------------------------------------- the tables and the history

  type Owners = map<nat, set<WaitNode>>

  function AddEdge<T(!new, ==)>(g: Graph<T>, a: T, b: T): (r: Graph<T>)
    ensures forall x, y :: Edge(r, x, y) <==> Edge(g, x, y) || (x == a && y == b)
  {
    g[a := (if a in g then g[a] else {}) + {b}]
  }

  function HeldOf(held: map<nat, seq<nat>>, t: nat): seq<nat> {
    if t in held then held[t] else []
  }

  ghost predicate OwnersAgree(owners: Owners, h: History) {
    forall r, m :: (r in owners && m in owners[r]) <==> Owns(h, m, r)
  }

  ghost predicate WaitsAgree(waitFor: Graph<WaitNode>, h: History) {
    forall n, m :: Edge(waitFor, n, m) <==> WaitsFor(h, n, m)
  }

  ghost predicate HeldAgree(held: map<nat, seq<nat>>, h: History) {
    forall t, l :: multiset(HeldOf(held, t))[l] == Holding(h, t, l)
  }

  ghost predicate OrderAgrees(lockOrder: Graph<nat>, h: History) {
    forall a, b :: Edge(lockOrder, a, b) <==> Taken(h, a, b)
  }

  lemma AcquireKeepsWaiting(owners: Owners, waitFor: Graph<WaitNode>, h: History, node: WaitNode, resource: nat)
    requires OwnersAgree(owners, h) && WaitsAgree(waitFor, h)
    ensures var h' := h + [Acquire(node, resource)];
            if node.pid == INVALID_PID then OwnersAgree(owners, h') && WaitsAgree(waitFor, h')
            else
              && OwnersAgree(owners[resource := (if resource in owners then owners[resource] else {}) + {node}], h')
              && WaitsAgree(waitFor - {node}, h')
  {
    var c := Acquire(node, resource);
    forall r, m
      ensures Owns(h + [c], m, r) <==> (c == Acquire(m, r) && m.pid != INVALID_PID) || Owns(h, m, r)
    {
      OwnsAfter(h, c, m, r);
    }
    forall n, m
      ensures WaitsFor(h + [c], n, m) <==> WaitsFor(h, n, m) && node != n
    {
      WaitsForAfter(h, c, n, m);
    }
    if node.pid == INVALID_PID {
      forall m
        ensures !WaitsFor(h, node, m)
      {
      }
    }
  }

  lemma ReleaseKeepsWaiting(owners: Owners, waitFor: Graph<WaitNode>, h: History, node: WaitNode, resource: nat)
    requires OwnersAgree(owners, h) && WaitsAgree(waitFor, h)
    ensures var h' := h + [Release(node, resource)];
            && WaitsAgree(waitFor, h')
            && (if resource !in owners then OwnersAgree(owners, h')
                else if owners[resource] - {node} == {} then OwnersAgree(owners - {resource}, h')
                else OwnersAgree(owners[resource := owners[resource] - {node}], h'))
  {
    var c := Release(node, resource);
    forall r, m
      ensures Owns(h + [c], m, r) <==> Owns(h, m, r) && c != Release(m, r)
    {
      OwnsAfter(h, c, m, r);
    }
    forall n, m
      ensures WaitsFor(h + [c], n, m) <==> WaitsFor(h, n, m)
    {
      WaitsForAfter(h, c, n, m);
    }
    if resource in owners && owners[resource] - {node} == {} {
      assert forall m | m in owners[resource] :: m in owners[resource] - {node} || m == node;
    }
  }

  lemma WaitKeepsWaiting(owners: Owners, waitFor: Graph<WaitNode>, waitFor': Graph<WaitNode>, h: History,
                         node: WaitNode, resource: nat)
    requires OwnersAgree(owners, h) && WaitsAgree(waitFor, h)
    requires if node.pid == INVALID_PID then waitFor' == waitFor
             else forall n, m ::
                 Edge(waitFor', n, m) <==>
                 if n == node then m != node && resource in owners && m in owners[resource] else Edge(waitFor, n, m)
    ensures var h' := h + [Wait(node, resource)];
            OwnersAgree(owners, h') && WaitsAgree(waitFor', h')
  {
    var c := Wait(node, resource);
    forall r, m
      ensures Owns(h + [c], m, r) <==> Owns(h, m, r)
    {
      OwnsAfter(h, c, m, r);
    }
    forall n, m
      ensures Edge(waitFor', n, m) <==> WaitsFor(h + [c], n, m)
    {
      WaitsForAfter(h, c, n, m);
    }
  }

  lemma TakeKeepsOrder(held: map<nat, seq<nat>>, lockOrder: Graph<nat>, lockOrder': Graph<nat>, h: History,
                       thread: nat, lock: nat)
    requires HeldAgree(held, h) && OrderAgrees(lockOrder, h)
    requires forall a, b :: Edge(lockOrder', a, b) <==>
                            Edge(lockOrder, a, b) || (b == lock && a != lock && a in HeldOf(held, thread))
    ensures var h' := h + [LockAcquire(thread, lock)];
            HeldAgree(held[thread := HeldOf(held, thread) + [lock]], h') && OrderAgrees(lockOrder', h')
  {
    var c := LockAcquire(thread, lock);
    var held' := held[thread := HeldOf(held, thread) + [lock]];
    forall t, l
      ensures multiset(HeldOf(held', t))[l] == Holding(h + [c], t, l)
    {
      HoldingAfter(h, c, t, l);
    }
    forall a, b
      ensures Edge(lockOrder', a, b) <==> Taken(h + [c], a, b)
    {
      TakenAfter(h, c, a, b);
      assert multiset(HeldOf(held, thread))[a] > 0 <==> a in HeldOf(held, thread);
    }
  }

  /** Gives up one occurrence, if there is any. */
  method EraseFirst(held: seq<nat>, lock: nat) returns (held': seq<nat>)
    ensures multiset(held') == multiset(held) - multiset{lock}
  {
    var i := Find(held, lock);
    if i == |held| {
      return held;
    }
    assert held == held[..i] + [held[i]] + held[i + 1..];
    return held[..i] + held[i + 1..];
  }

  /** One occurrence of the lock less for the thread; an empty list is dropped from the table. */
  method GiveBack(held: map<nat, seq<nat>>, thread: nat, lock: nat) returns (held': map<nat, seq<nat>>)
    ensures forall t | t != thread :: HeldOf(held', t) == HeldOf(held, t)
    ensures multiset(HeldOf(held', thread)) == multiset(HeldOf(held, thread)) - multiset{lock}
  {
    if thread !in held {
      return held;
    }
    var left := EraseFirst(held[thread], lock);
    held' := if left == [] then held - {thread} else held[thread := left];
    assert HeldOf(held', thread) == left;
  }

  lemma OneLess(a: multiset<nat>, x: nat, l: nat)
    ensures (a - multiset{x})[l] == if l == x && a[l] > 0 then a[l] - 1 else a[l]
  {
  }

  /** A release counts down what its thread holds of that lock, and nothing else. */
  lemma GiveKeepsHeld(held: map<nat, seq<nat>>, held': map<nat, seq<nat>>, h: History, thread: nat, lock: nat)
    requires HeldAgree(held, h)
    requires forall t | t != thread :: HeldOf(held', t) == HeldOf(held, t)
    requires multiset(HeldOf(held', thread)) == multiset(HeldOf(held, thread)) - multiset{lock}
    ensures HeldAgree(held', h + [LockRelease(thread, lock)])
  {
    hide Holding, HeldOf;
    var c := LockRelease(thread, lock);
    forall t, l
      ensures multiset(HeldOf(held', t))[l] == Holding(h + [c], t, l)
    {
      HoldingAfter(h, c, t, l);
      OneLess(multiset(HeldOf(held, thread)), lock, l);
      assert multiset(HeldOf(held, t))[l] == Holding(h, t, l);
    }
  }

  lemma GiveKeepsOrder(lockOrder: Graph<nat>, h: History, thread: nat, lock: nat)
    requires OrderAgrees(lockOrder, h)
    ensures OrderAgrees(lockOrder, h + [LockRelease(thread, lock)])
  {
    hide Holding, Taken;
    var c := LockRelease(thread, lock);
    forall a, b
      ensures Edge(lockOrder, a, b) <==> Taken(h + [c], a, b)
    {
      TakenAfter(h, c, a, b);
    }
  }

  // ---------------------------------------------------------------- what a cycle means

  lemma CircleIffCycle(g: Graph<WaitNode>, h: History, n: WaitNode)
    requires WaitsAgree(g, h)
    ensures Reaches(g, n, n) <==> WaitsInCircle(h, n)
  {
    if p :| Leads(g, n, n, p) {
      assert Chain(h, p) by {
        assert forall i | 0 <= i < |p| - 1 :: Edge(g, p[i], p[i + 1]);
      }
    }
    if p :| |p| >= 2 && Chain(h, p) && p[0] == n && p[|p| - 1] == n {
      assert Path(g, p) by {
        assert forall i | 0 <= i < |p| - 1 :: WaitsFor(h, p[i], p[i + 1]);
      }
      assert Leads(g, n, n, p);
    }
  }

  /** The lock-order graph has no cycle exactly when the history obeys some ranking of the locks. */
  lemma DisciplineIffAcyclic(g: Graph<nat>, h: History)
    requires OrderAgrees(g, h)
    ensures !Cyclic(g) <==> exists rank: nat -> int :: Disciplined(h, rank)
  {
    AcyclicIffRanked(g);
    if rank: nat -> int :| Ranks(g, rank) {
      forall i: nat, a, b | TakenUnder(h, a, b, i)
        ensures rank(a) < rank(b)
      {
        assert Taken(h, a, b);
        assert Edge(g, a, b);
      }
      assert Disciplined(h, rank);
    }
    if rank: nat -> int :| Disciplined(h, rank) {
      forall a, b | Edge(g, a, b)
        ensures rank(a) < rank(b)
      {
        assert Taken(h, a, b);
        var i: nat :| TakenUnder(h, a, b, i);
      }
      assert Ranks(g, rank);
    }
  }

  // ---------------------------------------------------------------- ordered reports

  ghost predicate Ascending(list: seq<nat>) {
    forall i, j | 0 <= i < j < |list| :: list[i] < list[j]
  }

  method Least(s: set<nat>) returns (least: nat)
    requires s != {}
    ensures least in s && forall x | x in s :: least <= x
  {
    least :| least in s;
    var rest := s - {least};
    while rest != {}
      invariant least in s && rest <= s && forall x | x in s && x !in rest :: least <= x
      decreases rest
    {
      var x :| x in rest;
      rest := rest - {x};
      if x < least {
        least := x;
      }
    }
  }

  /** The members of a set in ascending order. */
  method Listed(s: set<nat>) returns (list: seq<nat>)
    ensures Ascending(list) && forall x :: x in list <==> x in s
    ensures list == [] <==> s == {}
  {
    list := [];
    var rest := s;
    while rest != {}
      invariant rest <= s && Ascending(list) && forall x :: x in list <==> x in s && x !in rest
      invariant forall x, y | x in list && y in rest :: x < y
      decreases rest
    {
      var least := Least(rest);
      assert forall i | 0 <= i < |list| :: list[i] in list;
      rest := rest - {least};
      list := list + [least];
    }
    assert list != [] ==> list[0] in list;
  }

  // ---------------------------------------------------------------- the detector

  lemma NothingSeen()
    ensures OwnersAgree(map[], []) && WaitsAgree(map[], []) && HeldAgree(map[], []) && OrderAgrees(map[], [])
  {
    forall t, l
      ensures multiset(HeldOf(map[], t))[l] == Holding([], t, l)
    {
    }
  }

  class DeadlockDetector {
    var resourceOwners: map<nat, set<WaitNode>>
    var waitFor: Graph<WaitNode>
    var heldInternalLocks: map<nat, seq<nat>>
    var lockOrderGraph: Graph<nat>
    ghost var history: History

    /** The tables are exactly what the calls so far call for. */
    ghost predicate Valid()
      reads this
    {
      && OwnersAgree(resourceOwners, history) && WaitsAgree(waitFor, history)
      && HeldAgree(heldInternalLocks, history) && OrderAgrees(lockOrderGraph, history)
    }

    constructor ()
      ensures Valid() && history == []
    {
      resourceOwners, waitFor, heldInternalLocks, lockOrderGraph, history := map[], map[], map[], map[], [];
      new;
      NothingSeen();
    }

    method OnAcquire(pid: nat, resource: nat, thread: nat)
      requires Valid()
      modifies this
      ensures Valid() && history == old(history) + [Acquire(WaitNode(pid, thread), resource)]
    {
      hide OwnersAgree, WaitsAgree, HeldAgree, OrderAgrees;
      ghost var c := Acquire(WaitNode(pid, thread), resource);
      AcquireKeepsWaiting(resourceOwners, waitFor, history, c.node, resource);
      ResourceCallKeepsTables(heldInternalLocks, lockOrderGraph, history, c);
      history := history + [c];
      if pid == INVALID_PID {
        return;
      }
      var node := WaitNode(pid, thread);
      resourceOwners :=
        resourceOwners[resource := (if resource in resourceOwners then resourceOwners[resource] else {}) + {node}];
      waitFor := waitFor - {node};
    }

    method OnRelease(pid: nat, resource: nat, thread: nat)
      requires Valid()
      modifies this
      ensures Valid() && history == old(history) + [Release(WaitNode(pid, thread), resource)]
    {
      hide OwnersAgree, WaitsAgree, HeldAgree, OrderAgrees;
      ghost var c := Release(WaitNode(pid, thread), resource);
      ReleaseKeepsWaiting(resourceOwners, waitFor, history, c.node, resource);
      ResourceCallKeepsTables(heldInternalLocks, lockOrderGraph, history, c);
      history := history + [c];
      if resource !in resourceOwners {
        return;
      }
      var left := resourceOwners[resource] - {WaitNode(pid, thread)};
      if left == {} {
        resourceOwners := resourceOwners - {resource};
      } else {
        resourceOwners := resourceOwners[resource := left];
      }
    }

    method OnWait(pid: nat, resource: nat, thread: nat)
      requires Valid()
      modifies this
      ensures Valid() && history == old(history) + [Wait(WaitNode(pid, thread), resource)]
    {
      hide OwnersAgree, WaitsAgree, HeldAgree, OrderAgrees;
      ghost var c, before := Wait(WaitNode(pid, thread), resource), waitFor;
      ResourceCallKeepsTables(heldInternalLocks, lockOrderGraph, history, c);
      if pid == INVALID_PID {
        WaitKeepsWaiting(resourceOwners, before, waitFor, history, c.node, resource);
        history := history + [c];
        return;
      }
      var node := WaitNode(pid, thread);
      waitFor := waitFor - {node};
      if resource in resourceOwners {
        var rest := resourceOwners[resource];
        while rest != {}
          invariant resource in resourceOwners && rest <= resourceOwners[resource]
          invariant forall n, m :: Edge(waitFor, n, m) <==>
                                   if n == node then m != node && m in resourceOwners[resource] - rest
                                   else Edge(before, n, m)
          invariant resourceOwners == old(resourceOwners) && history == old(history)
          invariant heldInternalLocks == old(heldInternalLocks) && lockOrderGraph == old(lockOrderGraph)
          decreases rest
        {
          var owner :| owner in rest;
          rest := rest - {owner};
          if owner != node {
            waitFor := AddEdge(waitFor, node, owner);
          }
        }
      }
      WaitKeepsWaiting(resourceOwners, before, waitFor, history, node, resource);
      history := history + [c];
    }

    method OnInternalLockAcquire(thread: nat, lock: nat)
      requires Valid()
      modifies this
      ensures Valid() && history == old(history) + [LockAcquire(thread, lock)]
    {
      hide OwnersAgree, WaitsAgree, HeldAgree, OrderAgrees;
      var held := HeldOf(heldInternalLocks, thread);
      ghost var before := lockOrderGraph;
      for k := 0 to |held|
        invariant forall a, b :: Edge(lockOrderGraph, a, b) <==>
                                 Edge(before, a, b) || (b == lock && a != lock && a in held[..k])
        invariant resourceOwners == old(resourceOwners) && history == old(history)
        invariant heldInternalLocks == old(heldInternalLocks) && waitFor == old(waitFor)
      {
        assert held[..k + 1] == held[..k] + [held[k]];
        if held[k] != lock {
          lockOrderGraph := AddEdge(lockOrderGraph, held[k], lock);
        }
      }
      assert held[..|held|] == held;
      TakeKeepsOrder(heldInternalLocks, before, lockOrderGraph, history, thread, lock);
      LockCallKeepsTables(resourceOwners, waitFor, history, LockAcquire(thread, lock));
      heldInternalLocks := heldInternalLocks[thread := held + [lock]];
      history := history + [LockAcquire(thread, lock)];
    }

    method OnInternalLockRelease(thread: nat, lock: nat)
      requires Valid()
      modifies this
      ensures Valid() && history == old(history) + [LockRelease(thread, lock)]
    {
      hide OwnersAgree, WaitsAgree, HeldAgree, OrderAgrees, HeldOf;
      LockCallKeepsTables(resourceOwners, waitFor, history, LockRelease(thread, lock));
      var held := GiveBack(heldInternalLocks, thread, lock);
      GiveKeepsHeld(heldInternalLocks, held, history, thread, lock);
      heldInternalLocks := held;
      GiveKeepsOrder(lockOrderGraph, history, thread, lock);
      history := history + [LockRelease(thread, lock)];
    }

    /** A circular wait, or no ranking of the locks that the history obeys. */
    method HasDeadlock() returns (r: bool)
      requires Valid()
      ensures r <==> (exists n :: WaitsInCircle(history, n)) || !(exists rank: nat -> int :: Disciplined(history, rank))
    {
      r := HasCycle(waitFor);
      CyclesAreCircles(waitFor, history);
      if !r {
        r := HasInternalLockOrderCycle();
      }
    }

    /** Every listed process has a thread in a circular wait, and one is listed if there is any. */
    method GetDeadlockedProcesses() returns (pids: seq<nat>)
      requires Valid()
      ensures Ascending(pids)
      ensures forall pid | pid in pids :: exists thread :: WaitsInCircle(history, WaitNode(pid, thread))
      ensures pids != [] <==> exists n :: WaitsInCircle(history, n)
    {
      var nodes := CycleNodes(waitFor);
      CyclesAreCircles(waitFor, history);
      var found := set n | n in nodes :: n.pid;
      forall pid | pid in found
        ensures exists thread :: WaitsInCircle(history, WaitNode(pid, thread))
      {
        var n :| n in nodes && n.pid == pid;
        assert WaitsInCircle(history, WaitNode(pid, n.thread));
      }
      assert forall n | n in nodes :: n.pid in found;
      pids := Listed(found);
    }

    method HasInternalLockOrderCycle() returns (r: bool)
      requires Valid()
      ensures !r <==> exists rank: nat -> int :: Disciplined(history, rank)
    {
      r := HasCycle(lockOrderGraph);
      DisciplineIffAcyclic(lockOrderGraph, history);
    }

    /** Every listed lock can be reached from itself, each lock taken under the one before. */
    method GetInternalLockOrderCycle() returns (locks: seq<nat>)
      requires Valid()
      ensures Ascending(locks)
      ensures forall l | l in locks :: TakenInCircle(history, l)
      ensures locks == [] <==> exists rank: nat -> int :: Disciplined(history, rank)
    {
      var found := CycleNodes(lockOrderGraph);
      DisciplineIffAcyclic(lockOrderGraph, history);
      forall l | l in found
        ensures TakenInCircle(history, l)
      {
        var p :| Leads(lockOrderGraph, l, l, p);
        assert forall i | 0 <= i < |p| - 1 :: Edge(lockOrderGraph, p[i], p[i + 1]);
      }
      locks := Listed(found);
    }
  }

  /** A circle of locks, each taken under the one before it. */
  ghost predicate TakenInCircle(h: History, l: nat) {
    exists p: seq<nat> :: |p| >= 2 && p[0] == l && p[|p| - 1] == l && forall i | 0 <= i < |p| - 1 :: Taken(h, p[i], p[i + 1])
  }

  lemma CyclesAreCircles(g: Graph<WaitNode>, h: History)
    requires WaitsAgree(g, h)
    ensures forall n :: Reaches(g, n, n) <==> WaitsInCircle(h, n)
    ensures Cyclic(g) <==> exists n :: WaitsInCircle(h, n)
  {
    forall n
      ensures Reaches(g, n, n) <==> WaitsInCircle(h, n)
    {
      CircleIffCycle(g, h, n);
    }
  }

  lemma ResourceCallKeepsTables(held: map<nat, seq<nat>>, lockOrder: Graph<nat>, h: History, c: Call)
    requires c.Acquire? || c.Release? || c.Wait?
    requires HeldAgree(held, h) && OrderAgrees(lockOrder, h)
    ensures HeldAgree(held, h + [c]) && OrderAgrees(lockOrder, h + [c])
  {
    ResourceCallKeepsOrder(h, c);
  }

  lemma LockCallKeepsTables(owners: Owners, waitFor: Graph<WaitNode>, h: History, c: Call)
    requires c.LockAcquire? || c.LockRelease?
    requires OwnersAgree(owners, h) && WaitsAgree(waitFor, h)
    ensures OwnersAgree(owners, h + [c]) && WaitsAgree(waitFor, h + [c])
  {
    LockCallKeepsWaiting(h, c);
  }

  // ---------------------------------------------------------------- how current the edges are

  /** `n` is waiting for a resource that `m` owns now. */
  ghost predicate NowWaitsFor(h: History, n: WaitNode, m: WaitNode) {
    n != m && exists i: nat :: WaitsSince(h, n, i) && Owns(h, m, h[i].resource)
  }

  /** Call `c` gives the resource to `m` or takes it away. */
  predicate Moves(c: Call, m: WaitNode, resource: nat) {
    m.pid != INVALID_PID && (c == Acquire(m, resource) || c == Release(m, resource))
  }

  /** Among calls `i` to `k`, the last to move the resource to or from `m` is `j`. */
  ghost predicate LastMove(h: History, i: nat, k: nat, m: WaitNode, resource: nat, j: nat) {
    && i <= j < k <= |h| && Moves(h[j], m, resource)
    && forall l | j < l < k :: !Moves(h[l], m, resource)
  }

  /** If the resource has moved to or from `m` since call `i`, it has moved back. */
  ghost predicate Settled(h: History, i: nat, m: WaitNode, resource: nat)
    requires i < |h|
  {
    forall j: nat | LastMove(h, i, |h|, m, resource, j) :: h[j].Acquire? <==> Owns(h[..i], m, resource)
  }

  /** The edge, or its absence, from `n` to `m` is as current as the last wait of `n`. */
  ghost predicate SettledEdge(h: History, n: WaitNode, m: WaitNode) {
    n == m || forall i: nat | WaitsSince(h, n, i) :: Settled(h, i, m, h[i].resource)
  }

  /** The last move, if there is any, decides who owns; without one nothing has changed. */
  lemma {:induction false} OwnsByLastMove(h: History, i: nat, k: nat, m: WaitNode, resource: nat)
    returns (last: Option<nat>)
    requires i <= k <= |h|
    ensures last.Some? ==>
              LastMove(h, i, k, m, resource, last.value) && (Owns(h[..k], m, resource) <==> h[last.value].Acquire?)
    ensures last.None? ==>
              && (forall j | i <= j < k :: !Moves(h[j], m, resource))
              && (Owns(h[..k], m, resource) <==> Owns(h[..i], m, resource))
  {
    if i == k {
      return None;
    }
    last := OwnsByLastMove(h, i, k - 1, m, resource);
    assert h[..k] == h[..k - 1] + [h[k - 1]];
    OwnsAfter(h[..k - 1], h[k - 1], m, resource);
    if Moves(h[k - 1], m, resource) {
      return Some(k - 1);
    }
    assert Owns(h[..k], m, resource) <==> Owns(h[..k - 1], m, resource);
  }

  lemma OneLastMove(h: History, i: nat, k: nat, m: WaitNode, resource: nat, j: nat, j': nat)
    requires LastMove(h, i, k, m, resource, j) && LastMove(h, i, k, m, resource, j')
    ensures j == j'
  {
  }

  /** A resource is with `m` now as it was at call `i` if and only if its moves since are settled. */
  lemma OwnsIffSettled(h: History, i: nat, m: WaitNode, resource: nat)
    requires i < |h|
    ensures (Owns(h, m, resource) <==> Owns(h[..i], m, resource)) <==> Settled(h, i, m, resource)
  {
    hide Owns;
    assert h[..|h|] == h;
    var last := OwnsByLastMove(h, i, |h|, m, resource);
    forall j: nat | LastMove(h, i, |h|, m, resource, j)
      ensures last == Some(j)
    {
      if last.Some? {
        OneLastMove(h, i, |h|, m, resource, j, last.value);
      }
    }
  }

  /** Nobody waits since two moments at once. */
  lemma OneWait(h: History, n: WaitNode, i: nat, k: nat)
    requires WaitsSince(h, n, i) && WaitsSince(h, n, k)
    ensures i == k
  {
    assert k < i ==> EndsWait(h[i], n);
    assert i < k ==> EndsWait(h[k], n);
  }

  /**
   An edge, present or absent, is right about the current owners if and only if it is settled:
   the resource has not moved to or from `m` since the wait began, or has moved back.
   */
  lemma EdgeIsCurrentIff(h: History, n: WaitNode, m: WaitNode)
    ensures (WaitsFor(h, n, m) <==> NowWaitsFor(h, n, m)) <==> SettledEdge(h, n, m)
  {
    hide Owns, Settled;
    if i: nat :| WaitsSince(h, n, i) {
      forall k: nat | WaitsSince(h, n, k)
        ensures k == i
      {
        OneWait(h, n, i, k);
      }
      OwnsIffSettled(h, i, m, h[i].resource);
    }
  }

  /** While a resource changes no hands, those waiting for it wait exactly for its owners. */
  lemma WaitsForOwners(h: History, n: WaitNode, m: WaitNode, i: nat)
    requires WaitsSince(h, n, i)
    requires forall j | i < j < |h| :: (h[j].Acquire? || h[j].Release?) ==> h[j].resource != h[i].resource
    ensures WaitsFor(h, n, m) <==> n != m && Owns(h, m, h[i].resource)
  {
    hide Owns;
    forall k: nat | WaitsSince(h, n, k)
      ensures k == i
    {
      OneWait(h, n, i, k);
    }
    EdgeIsCurrentIff(h, n, m);
  }

  ghost predicate NowChain(h: History, p: seq<WaitNode>) {
    forall i | 0 <= i < |p| - 1 :: NowWaitsFor(h, p[i], p[i + 1])
  }

  ghost predicate SettledChain(h: History, p: seq<WaitNode>) {
    forall i | 0 <= i < |p| - 1 :: SettledEdge(h, p[i], p[i + 1])
  }

  /** A reported circle is a deadlock of the moment if and only if every edge on it is settled. */
  lemma CircleIsCurrentIff(h: History, p: seq<WaitNode>)
    requires |p| >= 2 && Chain(h, p) && p[0] == p[|p| - 1]
    ensures NowChain(h, p) <==> SettledChain(h, p)
  {
    hide WaitsFor, NowWaitsFor, SettledEdge;
    forall i | 0 <= i < |p| - 1
      ensures NowWaitsFor(h, p[i], p[i + 1]) <==> SettledEdge(h, p[i], p[i + 1])
    {
      EdgeIsCurrentIff(h, p[i], p[i + 1]);
      assert WaitsFor(h, p[i], p[i + 1]);
    }
  }

  /** A circle of current waits, reported or not, is reported if and only if every edge on it is settled. */
  lemma CurrentCircleIsReportedIff(h: History, p: seq<WaitNode>)
    requires |p| >= 2 && NowChain(h, p) && p[0] == p[|p| - 1]
    ensures Chain(h, p) <==> SettledChain(h, p)
  {
    hide WaitsFor, NowWaitsFor, SettledEdge;
    forall i | 0 <= i < |p| - 1
      ensures WaitsFor(h, p[i], p[i + 1]) <==> SettledEdge(h, p[i], p[i + 1])
    {
      EdgeIsCurrentIff(h, p[i], p[i + 1]);
      assert NowWaitsFor(h, p[i], p[i + 1]);
    }
  }

  /** A release does not withdraw edges: a circle can be reported though the awaited resource is free. */
  lemma StaleEdgesCanCloseACircle()
    ensures var p, q := WaitNode(1, 0), WaitNode(2, 0);
            var h := [Acquire(p, 1), Acquire(q, 2), Wait(p, 2), Release(q, 2), Wait(q, 1)];
            WaitsInCircle(h, p) && (forall m :: !Owns(h, m, 2)) && !SettledEdge(h, p, q)
  {
    var p, q := WaitNode(1, 0), WaitNode(2, 0);
    var h := [Acquire(p, 1), Acquire(q, 2), Wait(p, 2), Release(q, 2), Wait(q, 1)];
    assert Owns(h[..2], q, 2) by { assert h[..2][1] == Acquire(q, 2); }
    assert WaitsSince(h, p, 2);
    assert Owns(h[..4], p, 1) by { assert h[..4][0] == Acquire(p, 1); }
    assert WaitsSince(h, q, 4);
    assert Chain(h, [p, q, p]);
    forall m
      ensures !Owns(h, m, 2)
    {
      assert h[3] == Release(q, 2);
    }
    assert LastMove(h, 2, |h|, q, 2, 3);
  }

  /** Nor does an acquire add edges: two processes can block each other and not be reported. */
  lemma LateOwnersAreMissed()
    ensures var p, q := WaitNode(1, 0), WaitNode(2, 0);
            var h := [Acquire(p, 1), Wait(p, 2), Acquire(q, 2), Wait(q, 1)];
            NowChain(h, [p, q, p]) && (forall m :: !WaitsFor(h, p, m)) && !SettledEdge(h, p, q)
  {
    var p, q := WaitNode(1, 0), WaitNode(2, 0);
    var h := [Acquire(p, 1), Wait(p, 2), Acquire(q, 2), Wait(q, 1)];
    assert WaitsSince(h, p, 1) && WaitsSince(h, q, 3);
    assert Owns(h, q, 2) by { assert h[2] == Acquire(q, 2); }
    assert Owns(h, p, 1) by { assert h[0] == Acquire(p, 1); }
    forall m
      ensures !WaitsFor(h, p, m)
    {
      forall i: nat | WaitsSince(h, p, i)
        ensures i == 1
      {
        OneWait(h, p, 1, i);
      }
      assert !Owns(h[..1], m, 2);
    }
    EdgeIsCurrentIff(h, p, q);
  }
}
