/** The Banker's check: can every process still get what it may ask for? */
module Banker {
  import opened Core

  type u32 = x: int | 0 <= x < 0x1_0000_0000

  datatype ResourceAllocation = ResourceAllocation(pid: nat, resources: seq<u32>)

  type Table = seq<ResourceAllocation>

  // ---------------------------------------------------------------- what is asked for

  /** Rows match process by process, with known and distinct processes and one entry per resource. */
  ghost predicate Matching(current: Table, maximum: Table, m: nat) {
    && |current| == |maximum|
    && (forall i | 0 <= i < |current| ::
          && current[i].pid == maximum[i].pid != INVALID_PID
          && |current[i].resources| == |maximum[i].resources| == m)
    && (forall i, j | 0 <= i < j < |current| :: current[i].pid != current[j].pid)
  }

  predicate RowsOf(current: Table, maximum: Table, m: nat) {
    && |current| == |maximum|
    && forall i | 0 <= i < |current| :: |current[i].resources| == |maximum[i].resources| == m
  }

  ghost predicate WithinClaims(current: Table, maximum: Table, m: nat)
    requires RowsOf(current, maximum, m)
  {
    forall i, r | 0 <= i < |current| && 0 <= r < m :: current[i].resources[r] <= maximum[i].resources[r]
  }

  /** What the flagged processes hold of resource `r`. */
  ghost function HeldBy(current: Table, flags: seq<bool>, r: nat): nat
    requires |flags| == |current| && forall i | 0 <= i < |current| :: r < |current[i].resources|
  {
    if current == [] then 0
    else
      var n := |current| - 1;
      HeldBy(current[..n], flags[..n], r) + (if flags[n] then current[n].resources[r] else 0)
  }

  /** What the processes in `order` hold of resource `r`. */
  ghost function HeldInTurn(current: Table, order: seq<nat>, r: nat): nat
    requires forall k | 0 <= k < |order| :: order[k] < |current|
    requires forall i | 0 <= i < |current| :: r < |current[i].resources|
  {
    if order == [] then 0
    else
      var n := |order| - 1;
      HeldInTurn(current, order[..n], r) + current[order[n]].resources[r]
  }

  ghost predicate Indices(order: seq<nat>, n: nat) {
    && (forall k | 0 <= k < |order| :: order[k] < n)
    && (forall j, k | 0 <= j < k < |order| :: order[j] != order[k])
  }

  /** Process `i` can be given all it may still ask for, once those in `before` have finished. */
  ghost predicate Served(current: Table, maximum: Table, available: seq<u32>, before: seq<nat>, i: nat)
    requires RowsOf(current, maximum, |available|)
    requires i < |current| && forall k | 0 <= k < |before| :: before[k] < |current|
  {
    forall r | 0 <= r < |available| ::
      maximum[i].resources[r] as int - current[i].resources[r] <= available[r] + HeldInTurn(current, before, r)
  }

  ghost predicate Feasible(current: Table, maximum: Table, available: seq<u32>, order: seq<nat>)
    requires RowsOf(current, maximum, |available|)
  {
    && Indices(order, |current|)
    && forall k | 0 <= k < |order| :: Served(current, maximum, available, order[..k], order[k])
  }

  /** Some order lets every process finish. */
  ghost predicate Safe(current: Table, maximum: Table, available: seq<u32>)
    requires RowsOf(current, maximum, |available|)
  {
    exists order :: |order| == |current| && Feasible(current, maximum, available, order)
  }

  /** Every process but `j`. */
  ghost function AllBut(n: nat, j: nat): (f: seq<bool>)
    ensures |f| == n && forall i | 0 <= i < n :: f[i] <==> i != j
  {
    seq(n, i requires 0 <= i < n => i != j)
  }

  /**
   What is there of each resource, apart from what any one process holds, can be counted in 32
   bits: the last process to finish gives back nothing that anyone needs.
   */
  ghost predicate Fits(current: Table, available: seq<u32>)
    requires forall i | 0 <= i < |current| :: |current[i].resources| == |available|
  {
    forall j, r | 0 <= j < |current| && 0 <= r < |available| ::
      available[r] + HeldBy(current, AllBut(|current|, j), r) < 0x1_0000_0000
  }

  // ---------------------------------------------------------------- what is computed

  predicate CanFinish(held: seq<u32>, claim: seq<u32>, work: seq<u32>)
    requires |held| == |claim| == |work|
  {
    forall r | 0 <= r < |work| :: claim[r] as int - held[r] <= work[r]
  }

  function Add32(a: u32, b: u32): u32 {
    (a + b) % 0x1_0000_0000
  }

  function GiveBack(work: seq<u32>, held: seq<u32>): (w: seq<u32>)
    requires |held| == |work|
    ensures |w| == |work|
  {
    seq(|work|, r requires 0 <= r < |work| => Add32(work[r], held[r]))
  }

  function CountUnfinished(finished: seq<bool>): nat {
    if finished == [] then 0
    else CountUnfinished(finished[..|finished| - 1]) + (if finished[|finished| - 1] then 0 else 1)
  }

  /** One sweep over the processes from index `i` on. */
  function Sweep(current: Table, maximum: Table, work: seq<u32>, finished: seq<bool>, i: nat): (s: (seq<u32>, seq<bool>))
    requires RowsOf(current, maximum, |work|) && |finished| == |current| && i <= |current|
    ensures |s.0| == |work| && |s.1| == |finished|
    ensures forall j | 0 <= j < |finished| && finished[j] :: s.1[j]
    ensures s.1 == finished ==> s.0 == work
    decreases |current| - i
  {
    if i == |current| then (work, finished)
    else if !finished[i] && CanFinish(current[i].resources, maximum[i].resources, work) then
      Sweep(current, maximum, GiveBack(work, current[i].resources), finished[i := true], i + 1)
    else
      Sweep(current, maximum, work, finished, i + 1)
  }

  lemma {:induction false} MoreFinished(f: seq<bool>, g: seq<bool>)
    requires |f| == |g| && forall j | 0 <= j < |f| && f[j] :: g[j]
    ensures CountUnfinished(g) <= CountUnfinished(f) <= |f|
    ensures CountUnfinished(g) == CountUnfinished(f) <==> f == g
  {
    if f != [] {
      var n := |f| - 1;
      MoreFinished(f[..n], g[..n]);
      assert f == f[..n] + [f[n]] && g == g[..n] + [g[n]];
    }
  }

  lemma {:induction false} NoneUnfinished(f: seq<bool>)
    ensures CountUnfinished(f) == 0 <==> forall j | 0 <= j < |f| :: f[j]
  {
    if f != [] {
      var n := |f| - 1;
      NoneUnfinished(f[..n]);
      assert forall j | 0 <= j < n :: f[..n][j] == f[j];
    }
  }

  /** Sweeps until one changes nothing. */
  function Sweeps(current: Table, maximum: Table, work: seq<u32>, finished: seq<bool>): (f: seq<bool>)
    requires RowsOf(current, maximum, |work|) && |finished| == |current|
    ensures |f| == |finished|
    decreases CountUnfinished(finished)
  {
    var (w, f) := Sweep(current, maximum, work, finished, 0);
    MoreFinished(finished, f);
    if f == finished then finished else Sweeps(current, maximum, w, f)
  }

  ghost predicate AllFinish(current: Table, maximum: Table, available: seq<u32>)
    requires RowsOf(current, maximum, |available|)
  {
    var f := Sweeps(current, maximum, available, seq(|current|, _ => false));
    forall i | 0 <= i < |current| :: f[i]
  }

  // ---------------------------------------------------------------- sums

  lemma {:induction false} HeldByAfter(current: Table, flags: seq<bool>, x: nat, r: nat)
    requires |flags| == |current| && (forall i | 0 <= i < |current| :: r < |current[i].resources|)
    requires x < |current| && !flags[x]
    ensures HeldBy(current, flags[x := true], r) == HeldBy(current, flags, r) + current[x].resources[r]
  {
    var n := |current| - 1;
    if x < n {
      assert flags[x := true][..n] == flags[..n][x := true];
      HeldByAfter(current[..n], flags[..n], x, r);
    } else {
      assert flags[x := true][..n] == flags[..n];
    }
  }

  lemma {:induction false} HeldByMonotone(current: Table, f: seq<bool>, g: seq<bool>, r: nat)
    requires |f| == |g| == |current| && (forall i | 0 <= i < |current| :: r < |current[i].resources|)
    requires forall i | 0 <= i < |f| && f[i] :: g[i]
    ensures HeldBy(current, f, r) <= HeldBy(current, g, r)
  {
    if current != [] {
      var n := |current| - 1;
      HeldByMonotone(current[..n], f[..n], g[..n], r);
    }
  }

  lemma {:induction false} HeldByNone(current: Table, f: seq<bool>, r: nat)
    requires |f| == |current| && (forall i | 0 <= i < |current| :: r < |current[i].resources|)
    requires forall i | 0 <= i < |f| :: !f[i]
    ensures HeldBy(current, f, r) == 0
  {
    if current != [] {
      var n := |current| - 1;
      HeldByNone(current[..n], f[..n], r);
    }
  }

  ghost function Flags(order: seq<nat>, n: nat): (f: seq<bool>)
    ensures |f| == n && forall i | 0 <= i < n :: f[i] <==> i in order
  {
    seq(n, i requires 0 <= i < n => i in order)
  }

  /** In whatever order, distinct processes hold what they hold together. */
  lemma {:induction false} HeldInTurnIsHeldBy(current: Table, order: seq<nat>, r: nat)
    requires Indices(order, |current|) && (forall i | 0 <= i < |current| :: r < |current[i].resources|)
    ensures HeldInTurn(current, order, r) == HeldBy(current, Flags(order, |current|), r)
  {
    var n := |current|;
    if order == [] {
      HeldByNone(current, Flags(order, n), r);
    } else {
      var k := |order| - 1;
      HeldInTurnIsHeldBy(current, order[..k], r);
      assert order == order[..k] + [order[k]];
      assert Flags(order, n) == Flags(order[..k], n)[order[k] := true];
      HeldByAfter(current, Flags(order[..k], n), order[k], r);
    }
  }

  // ---------------------------------------------------------------- every answer "safe" is right

  /** `order` is a feasible order of the finished processes, and `work` promises no more than they gave back. */
  ghost predicate Accounted(current: Table, maximum: Table, available: seq<u32>,
                            work: seq<u32>, finished: seq<bool>, order: seq<nat>)
    requires RowsOf(current, maximum, |available|)
  {
    && |work| == |available| && |finished| == |current|
    && Feasible(current, maximum, available, order) && finished == Flags(order, |current|)
    && forall r | 0 <= r < |work| :: work[r] <= available[r] + HeldBy(current, finished, r)
  }

  /** Without wrap-around, `work` is exactly what there is. */
  ghost predicate Exact(current: Table, available: seq<u32>, work: seq<u32>, finished: seq<bool>)
    requires |work| == |available| && |finished| == |current|
    requires forall i | 0 <= i < |current| :: |current[i].resources| == |available|
  {
    forall r | 0 <= r < |work| :: work[r] == available[r] + HeldBy(current, finished, r)
  }

  /** The same, as long as a process is left that `work` matters to. */
  ghost predicate ExactWhileNeeded(current: Table, available: seq<u32>, work: seq<u32>, finished: seq<bool>)
    requires |work| == |available| && |finished| == |current|
    requires forall i | 0 <= i < |current| :: |current[i].resources| == |available|
  {
    (exists j :: 0 <= j < |finished| && !finished[j]) ==> Exact(current, available, work, finished)
  }

  /** No process gives back more than can be counted while another one is left. */
  lemma NoWrapWhileNeeded(current: Table, available: seq<u32>, finished: seq<bool>, j: nat, r: nat)
    requires (forall i | 0 <= i < |current| :: |current[i].resources| == |available|)
    requires |finished| == |current| && j < |finished| && !finished[j] && r < |available| && Fits(current, available)
    ensures available[r] + HeldBy(current, finished, r) < 0x1_0000_0000
  {
    HeldByMonotone(current, finished, AllBut(|current|, j), r);
  }

  lemma FeasibleSnoc(current: Table, maximum: Table, available: seq<u32>, order: seq<nat>, i: nat)
    requires RowsOf(current, maximum, |available|) && Feasible(current, maximum, available, order)
    requires i < |current| && i !in order && Served(current, maximum, available, order, i)
    ensures Feasible(current, maximum, available, order + [i])
  {
    var o := order + [i];
    forall k | 0 <= k < |o|
      ensures Served(current, maximum, available, o[..k], o[k])
    {
      assert o[..k] == order[..k];
      assert k == |order| ==> order[..k] == order;
    }
  }

  /** Finishing a process that can finish keeps the account. */
  lemma FinishKeepsAccount(current: Table, maximum: Table, available: seq<u32>,
                           work: seq<u32>, finished: seq<bool>, order: seq<nat>, i: nat)
    requires RowsOf(current, maximum, |available|) && Accounted(current, maximum, available, work, finished, order)
    requires i < |current| && !finished[i] && CanFinish(current[i].resources, maximum[i].resources, work)
    ensures Accounted(current, maximum, available,
                      GiveBack(work, current[i].resources), finished[i := true], order + [i])
  {
    forall r | 0 <= r < |available|
      ensures maximum[i].resources[r] as int - current[i].resources[r] <= available[r] + HeldInTurn(current, order, r)
      ensures HeldBy(current, finished[i := true], r) == HeldBy(current, finished, r) + current[i].resources[r]
    {
      HeldInTurnIsHeldBy(current, order, r);
      HeldByAfter(current, finished, i, r);
    }
    FeasibleSnoc(current, maximum, available, order, i);
    assert finished[i := true] == Flags(order + [i], |current|);
  }

  /** Without wrap-around for as long as it matters, `work` stays exact. */
  lemma FinishKeepsExact(current: Table, available: seq<u32>, work: seq<u32>, finished: seq<bool>, i: nat)
    requires (forall k | 0 <= k < |current| :: |current[k].resources| == |available|)
    requires |work| == |available| && |finished| == |current| && i < |current| && !finished[i]
    requires ExactWhileNeeded(current, available, work, finished) && Fits(current, available)
    ensures ExactWhileNeeded(current, available, GiveBack(work, current[i].resources), finished[i := true])
  {
    hide Fits;
    var finished', work' := finished[i := true], GiveBack(work, current[i].resources);
    if j :| 0 <= j < |finished'| && !finished'[j] {
      forall r | 0 <= r < |available|
        ensures work'[r] == available[r] + HeldBy(current, finished', r)
      {
        HeldByAfter(current, finished, i, r);
        NoWrapWhileNeeded(current, available, finished', j, r);
      }
    }
  }

  lemma {:induction false} SweepKeepsAccount(current: Table, maximum: Table, available: seq<u32>,
                                             work: seq<u32>, finished: seq<bool>, i: nat, order: seq<nat>)
    returns (order': seq<nat>)
    requires RowsOf(current, maximum, |available|) && Accounted(current, maximum, available, work, finished, order)
    requires i <= |current|
    ensures var (w, f) := Sweep(current, maximum, work, finished, i);
            && Accounted(current, maximum, available, w, f, order')
            && (ExactWhileNeeded(current, available, work, finished) && Fits(current, available) ==>
                  ExactWhileNeeded(current, available, w, f))
    decreases |current| - i
  {
    hide Accounted, ExactWhileNeeded, Fits;
    SizesOfAccount(current, maximum, available, work, finished, order);
    if i == |current| {
      order' := order;
    } else if !finished[i] && CanFinish(current[i].resources, maximum[i].resources, work) {
      FinishKeepsAccount(current, maximum, available, work, finished, order, i);
      if ExactWhileNeeded(current, available, work, finished) && Fits(current, available) {
        FinishKeepsExact(current, available, work, finished, i);
      }
      order' := SweepKeepsAccount(current, maximum, available, GiveBack(work, current[i].resources), finished[i := true],
                                  i + 1, order + [i]);
    } else {
      order' := SweepKeepsAccount(current, maximum, available, work, finished, i + 1, order);
    }
  }

  lemma SizesOfAccount(current: Table, maximum: Table, available: seq<u32>,
                       work: seq<u32>, finished: seq<bool>, order: seq<nat>)
    requires RowsOf(current, maximum, |available|) && Accounted(current, maximum, available, work, finished, order)
    ensures |work| == |available| && |finished| == |current|
  {
  }

  lemma SweepMarks(current: Table, maximum: Table, work: seq<u32>, finished: seq<bool>, i: nat)
    requires RowsOf(current, maximum, |work|) && |finished| == |current| && i < |current|
    ensures CanFinish(current[i].resources, maximum[i].resources, work) ==>
              Sweep(current, maximum, work, finished, i).1[i]
  {
  }

  /** A sweep that changes nothing found no process that can finish. */
  lemma {:induction false} IdleSweep(current: Table, maximum: Table, work: seq<u32>, finished: seq<bool>, i: nat, j: nat)
    requires RowsOf(current, maximum, |work|) && |finished| == |current| && i <= j < |current|
    requires Sweep(current, maximum, work, finished, i).1 == finished && !finished[j]
    ensures !CanFinish(current[j].resources, maximum[j].resources, work)
    decreases |current| - i
  {
    SweepMarks(current, maximum, work, finished, i);
    if i < j {
      IdleSweep(current, maximum, work, finished, i + 1, j);
    }
  }

  lemma {:induction false} SweepsKeepAccount(current: Table, maximum: Table, available: seq<u32>,
                                             work: seq<u32>, finished: seq<bool>, order: seq<nat>)
    returns (work': seq<u32>, order': seq<nat>)
    requires RowsOf(current, maximum, |available|) && Accounted(current, maximum, available, work, finished, order)
    requires |work| == |available| && |finished| == |current|
    ensures var f := Sweeps(current, maximum, work, finished);
            && Accounted(current, maximum, available, work', f, order')
            && |work'| == |available|
            && (ExactWhileNeeded(current, available, work, finished) && Fits(current, available) ==>
                  ExactWhileNeeded(current, available, work', f))
            && forall j | 0 <= j < |current| && !f[j] :: !CanFinish(current[j].resources, maximum[j].resources, work')
    decreases CountUnfinished(finished)
  {
    hide Accounted, ExactWhileNeeded, Fits, CanFinish;
    var (w, f) := Sweep(current, maximum, work, finished, 0);
    MoreFinished(finished, f);
    order' := SweepKeepsAccount(current, maximum, available, work, finished, 0, order);
    if f == finished {
      work', order' := work, order;
      forall j | 0 <= j < |current| && !f[j]
        ensures !CanFinish(current[j].resources, maximum[j].resources, work')
      {
        IdleSweep(current, maximum, work, finished, 0, j);
      }
    } else {
      work', order' := SweepsKeepAccount(current, maximum, available, w, f, order');
    }
  }

  // ---------------------------------------------------------------- the verdict

  lemma StartOfAccount(current: Table, maximum: Table, available: seq<u32>)
    requires RowsOf(current, maximum, |available|)
    ensures var none := seq(|current|, _ => false);
            && Accounted(current, maximum, available, available, none, [])
            && Exact(current, available, available, none)
  {
    var none := seq(|current|, _ => false);
    assert none == Flags([], |current|);
    forall r | 0 <= r < |available|
      ensures HeldBy(current, none, r) == 0
    {
      HeldByNone(current, none, r);
    }
  }

  ghost function Below(n: nat): (s: set<nat>)
    ensures |s| == n && forall k: nat :: k in s <==> k < n
  {
    if n == 0 then {} else Below(n - 1) + {n - 1}
  }

  /** Distinct indices below `n` are all of them exactly when there are `n`. */
  lemma CompleteOrders(order: seq<nat>, n: nat)
    requires Indices(order, n)
    ensures |order| == n <==> Members(order) == Below(n)
  {
    MembersCount(order);
    assert Members(order) <= Below(n);
    assert Below(n) == Members(order) + (Below(n) - Members(order));
    assert |Below(n) - Members(order)| == 0 <==> Below(n) - Members(order) == {};
  }

  /** A process next in a feasible order can finish once the order before it is finished. */
  lemma NextInOrder(current: Table, maximum: Table, available: seq<u32>,
                    work: seq<u32>, finished: seq<bool>, order: seq<nat>, k: nat)
    requires RowsOf(current, maximum, |available|) && |work| == |available| && |finished| == |current|
    requires Feasible(current, maximum, available, order) && k < |order|
    requires forall j | 0 <= j < k :: finished[order[j]]
    requires Exact(current, available, work, finished)
    ensures CanFinish(current[order[k]].resources, maximum[order[k]].resources, work)
  {
    var i := order[k];
    assert Served(current, maximum, available, order[..k], i);
    forall r | 0 <= r < |work|
      ensures maximum[i].resources[r] as int - current[i].resources[r] <= work[r]
    {
      HeldInTurnIsHeldBy(current, order[..k], r);
      HeldByMonotone(current, Flags(order[..k], |current|), finished, r);
    }
  }

  /** If nobody left can finish, no feasible order names anybody left. */
  lemma {:induction false} NobodyLeft(current: Table, maximum: Table, available: seq<u32>,
                                      work: seq<u32>, finished: seq<bool>, order: seq<nat>, k: nat)
    requires RowsOf(current, maximum, |available|) && |work| == |available| && |finished| == |current|
    requires Feasible(current, maximum, available, order) && k <= |order|
    requires Exact(current, available, work, finished)
    requires forall j | 0 <= j < |current| && !finished[j] :: !CanFinish(current[j].resources, maximum[j].resources, work)
    ensures forall j | 0 <= j < k :: finished[order[j]]
  {
    if k > 0 {
      NobodyLeft(current, maximum, available, work, finished, order, k - 1);
      NextInOrder(current, maximum, available, work, finished, order, k - 1);
    }
  }

  /**
   The greedy check is sound on every table, and complete when the resources, apart from what any
   one process holds, can be counted in 32 bits: the order in which the sweeps finish processes never matters.
   */
  lemma GreedyIsRight(current: Table, maximum: Table, available: seq<u32>)
    requires RowsOf(current, maximum, |available|)
    ensures AllFinish(current, maximum, available) ==> Safe(current, maximum, available)
    ensures Fits(current, available) && Safe(current, maximum, available) ==> AllFinish(current, maximum, available)
  {
    hide Exact, Fits;
    var none := seq(|current|, _ => false);
    StartOfAccount(current, maximum, available);
    var work, order := SweepsKeepAccount(current, maximum, available, available, none, []);
    var f := Sweeps(current, maximum, available, none);
    if AllFinish(current, maximum, available) {
      assert forall i | 0 <= i < |current| :: f[i];
      assert Members(order) == Below(|current|);
      CompleteOrders(order, |current|);
    } else if Fits(current, available) && Safe(current, maximum, available) {
      var o :| |o| == |current| && Feasible(current, maximum, available, o);
      NobodyLeft(current, maximum, available, work, f, o, |o|);
      forall i | 0 <= i < |current|
        ensures f[i]
      {
        CompleteOrders(o, |current|);
        assert i in Below(|current|);
      }
    }
  }

  const BIG: u32 := 0xFFFF_FFFF
  const HELD: Table := [ResourceAllocation(1, [BIG]), ResourceAllocation(2, [0])]
  const CLAIMS: Table := [ResourceAllocation(1, [BIG]), ResourceAllocation(2, [1])]

  lemma TooLittle(held: seq<u32>, claim: seq<u32>, work: seq<u32>, r: nat)
    requires |held| == |claim| == |work| && r < |work| && work[r] as int + held[r] < claim[r]
    ensures !CanFinish(held, claim, work)
  {
    assert claim[r] as int - held[r] > work[r];
  }

  /** Giving 2^32 - 1 back to 1 leaves nothing for the second process. */
  lemma WrappedSweeps()
    ensures !AllFinish(HELD, CLAIMS, [1])
  {
    var none, f := [false, false], [true, false];
    assert seq(|HELD|, _ => false) == none;
    assert GiveBack([1], [BIG]) == [0];
    TooLittle([0], [1], [0], 0);
    assert CanFinish([BIG], [BIG], [1]) && none[0 := true] == f;
    assert Sweep(HELD, CLAIMS, [0], f, 1) == ([0], f);
    assert Sweep(HELD, CLAIMS, [1], none, 0) == ([0], f);
    assert Sweep(HELD, CLAIMS, [0], f, 0) == ([0], f);
    assert Sweeps(HELD, CLAIMS, [0], f) == f;
    assert Sweeps(HELD, CLAIMS, [1], none) == f;
    assert !f[1];
  }

  /** Beyond 32 bits a safe state can be refused. */
  lemma WrapAroundRefusesSafeState()
    ensures Matching(HELD, CLAIMS, 1) && WithinClaims(HELD, CLAIMS, 1)
    ensures Safe(HELD, CLAIMS, [1]) && !AllFinish(HELD, CLAIMS, [1]) && !Fits(HELD, [1])
  {
    hide AllFinish, Sweep, Sweeps;
    WrappedSweeps();
    var order := [1, 0];
    assert Served(HELD, CLAIMS, [1], order[..0], 1);
    assert Served(HELD, CLAIMS, [1], order[..1], 0);
    assert Feasible(HELD, CLAIMS, [1], order);
    GreedyIsRight(HELD, CLAIMS, [1]);
  }

  // ---------------------------------------------------------------- the check itself

  /** The checks before the algorithm proper. */
  method Acceptable(current: Table, maximum: Table, m: nat) returns (ok: bool)
    requires |current| == |maximum|
    ensures ok <==> Matching(current, maximum, m) && WithinClaims(current, maximum, m)
  {
    var seen: set<nat> := {};
    for i := 0 to |current|
      invariant forall j | 0 <= j < i ::
          && current[j].pid == maximum[j].pid != INVALID_PID
          && |current[j].resources| == |maximum[j].resources| == m
      invariant seen == set j | 0 <= j < i :: current[j].pid
      invariant forall j, k | 0 <= j < k < i :: current[j].pid != current[k].pid
    {
      if current[i].pid == INVALID_PID || maximum[i].pid == INVALID_PID {
        return false;
      }
      if current[i].pid != maximum[i].pid {
        return false;
      }
      if |current[i].resources| != m || |maximum[i].resources| != m {
        return false;
      }
      if current[i].pid in seen {
        return false;
      }
      seen := seen + {current[i].pid};
    }
    assert RowsOf(current, maximum, m);
    for i := 0 to |current|
      invariant forall j, r | 0 <= j < i && 0 <= r < m :: current[j].resources[r] <= maximum[j].resources[r]
    {
      for r := 0 to m
        invariant forall q | 0 <= q < r :: current[i].resources[q] <= maximum[i].resources[q]
      {
        if current[i].resources[r] > maximum[i].resources[r] {
          return false;
        }
      }
    }
    return true;
  }

  method Check(held: seq<u32>, claim: seq<u32>, work: seq<u32>) returns (canFinish: bool)
    requires |held| == |claim| == |work|
    requires forall r | 0 <= r < |held| :: held[r] <= claim[r]
    ensures canFinish == CanFinish(held, claim, work)
  {
    canFinish := true;
    var r := 0;
    while r < |work|
      invariant 0 <= r <= |work| && forall q | 0 <= q < r :: claim[q] as int - held[q] <= work[q]
    {
      var need: u32 := claim[r] - held[r];
      if need > work[r] {
        return false;
      }
      r := r + 1;
    }
  }

  method Return(work: seq<u32>, held: seq<u32>) returns (work': seq<u32>)
    requires |held| == |work|
    ensures work' == GiveBack(work, held)
  {
    work' := work;
    for r := 0 to |work|
      invariant |work'| == |work|
      invariant forall q | 0 <= q < r :: work'[q] == Add32(work[q], held[q])
      invariant forall q | r <= q < |work| :: work'[q] == work[q]
    {
      work' := work'[r := Add32(work'[r], held[r])];
    }
  }

  lemma {:induction false} OneMoreFinished(finished: seq<bool>, i: nat)
    requires i < |finished| && !finished[i]
    ensures CountUnfinished(finished[i := true]) == CountUnfinished(finished) - 1
  {
    var n := |finished| - 1;
    if i < n {
      assert finished[i := true][..n] == finished[..n][i := true];
      OneMoreFinished(finished[..n], i);
    } else {
      assert finished[i := true][..n] == finished[..n];
    }
  }

  /** One sweep of the loop. */
  method SweepOnce(current: Table, maximum: Table, work: seq<u32>, finished: seq<bool>, count: nat)
    returns (work': seq<u32>, finished': seq<bool>, count': nat, progressed: bool)
    requires RowsOf(current, maximum, |work|) && WithinClaims(current, maximum, |work|)
    requires |finished| == |current| && count == |current| - CountUnfinished(finished)
    ensures (work', finished') == Sweep(current, maximum, work, finished, 0)
    ensures count' == |current| - CountUnfinished(finished')
    ensures progressed <==> finished' != finished
    ensures progressed ==> CountUnfinished(finished') < CountUnfinished(finished)
  {
    work', finished', count', progressed := work, finished, count, false;
    for i := 0 to |current|
      invariant |work'| == |work| && |finished'| == |finished|
      invariant Sweep(current, maximum, work', finished', i) == Sweep(current, maximum, work, finished, 0)
      invariant count' == |current| - CountUnfinished(finished')
      invariant forall j | 0 <= j < |finished| && finished[j] :: finished'[j]
      invariant progressed <==> finished' != finished
    {
      if finished'[i] {
        continue;
      }
      var canFinish := Check(current[i].resources, maximum[i].resources, work');
      if canFinish {
        OneMoreFinished(finished', i);
        work' := Return(work', current[i].resources);
        assert !finished[i];
        finished' := finished'[i := true];
        count' := count' + 1;
        progressed := true;
      }
    }
    MoreFinished(finished, finished');
  }

  /**
   The Banker's check. Malformed or over-claimed tables are unsafe, empty ones safe; otherwise a
   "safe" answer is always right, and it is exact when the resources fit in 32 bits.
   */
  method IsSafeState(current: Table, maximum: Table, available: seq<u32>) returns (r: bool)
    ensures |current| != |maximum| ==> !r
    ensures |current| == |maximum| && (current == [] || available == []) ==> r
    ensures current != [] && available != [] ==>
              && (r ==> Matching(current, maximum, |available|) && WithinClaims(current, maximum, |available|))
              && (r ==> Safe(current, maximum, available))
    ensures current != [] && available != [] &&
            Matching(current, maximum, |available|) && WithinClaims(current, maximum, |available|) ==>
              && (Fits(current, available) && Safe(current, maximum, available) ==> r)
              && (r <==> AllFinish(current, maximum, available))
  {
    hide Safe, Fits, Feasible, Sweep;
    if |current| != |maximum| {
      return false;
    }
    if |current| == 0 {
      return true;
    }
    if |available| == 0 {
      return true;
    }
    var ok := Acceptable(current, maximum, |available|);
    if !ok {
      return false;
    }
    var work, finished, finishCount := available, seq(|current|, _ => false), 0;
    NoneFinished(|current|);
    var progressed := true;
    while progressed
      invariant |work| == |available| && |finished| == |current|
      invariant finishCount == |current| - CountUnfinished(finished)
      invariant Sweeps(current, maximum, work, finished) == Sweeps(current, maximum, available, seq(|current|, _ => false))
      invariant !progressed ==> Sweeps(current, maximum, work, finished) == finished
      decreases progressed, CountUnfinished(finished)
    {
      ghost var before := finished;
      work, finished, finishCount, progressed := SweepOnce(current, maximum, work, finished, finishCount);
    }
    NoneUnfinished(finished);
    GreedyIsRight(current, maximum, available);
    return finishCount == |current|;
  }

  lemma {:induction false} NoneFinished(n: nat)
    ensures CountUnfinished(seq(n, _ => false)) == n
  {
    if n > 0 {
      assert seq(n, _ => false)[..n - 1] == seq(n - 1, _ => false);
      NoneFinished(n - 1);
    }
  }
}
