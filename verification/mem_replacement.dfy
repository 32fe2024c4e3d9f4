/** The page replacement policies: load order, least recent use, and second chance. */
module PageReplacement {
  import opened Core

  // ---------------------------------------------------------------- first in, first out

  /** Frames in load order; a frame that was freed may stay in the queue, even several times. */
  class FifoReplacement {
    var loadOrder: seq<nat>

    constructor ()
      ensures loadOrder == []
    {
      loadOrder := [];
    }

    method SelectVictim() returns (victim: Option<nat>)
      modifies this
      ensures old(loadOrder) == [] ==> victim == None && loadOrder == []
      ensures old(loadOrder) != [] ==> victim.Some? && old(loadOrder) == [victim.value] + loadOrder
    {
      if loadOrder == [] {
        return None;
      }
      victim := Some(loadOrder[0]);
      loadOrder := loadOrder[1..];
    }

    method OnLoad(frame: nat)
      modifies this
      ensures loadOrder == old(loadOrder) + [frame]
    {
      loadOrder := loadOrder + [frame];
    }
  }

  // ---------------------------------------------------------------- least recently used

  /** `recency` lists exactly the tracked frames, from the least to the most recent use. */
  ghost predicate Ordered(recency: seq<nat>, accessTime: map<nat, nat>) {
    && (forall f :: f in recency <==> f in accessTime)
    && (forall i, j | 0 <= i < j < |recency| :: accessTime[recency[i]] < accessTime[recency[j]])
  }

  /** Frames of increasing time stamps. */
  ghost predicate Increasing(frames: seq<nat>, time: map<nat, nat>) {
    && (forall f | f in frames :: f in time)
    && forall i, j | 0 <= i < j < |frames| :: time[frames[i]] < time[frames[j]]
  }

  lemma IncreasingUpToLast(frames: seq<nat>, time: map<nat, nat>)
    requires Increasing(frames, time) && frames != []
    ensures var n := |frames| - 1;
            && Increasing(frames[..n], time) && frames[n] in time
            && forall f | f in frames[..n] :: f in time && time[f] < time[frames[n]]
  {
    var n := |frames| - 1;
    assert frames[n] in frames;
    forall f | f in frames[..n]
      ensures f in time && time[f] < time[frames[n]]
    {
      assert f in frames;
    }
  }

  lemma IncreasingWithLast(frames: seq<nat>, time: map<nat, nat>, f: nat)
    requires Increasing(frames, time) && f in time && forall g | g in frames :: time[g] < time[f]
    ensures Increasing(frames + [f], time)
  {
    forall k | 0 <= k < |frames|
      ensures time[frames[k]] < time[f]
    {
      assert frames[k] in frames;
    }
  }

  lemma {:induction false} WithoutKeepsIncreasing(frames: seq<nat>, time: map<nat, nat>, x: nat)
    requires Increasing(frames, time)
    ensures Increasing(Without(frames, x), time)
  {
    hide Increasing;
    if frames != [] {
      var n := |frames| - 1;
      IncreasingUpToLast(frames, time);
      WithoutKeepsIncreasing(frames[..n], time, x);
      if frames[n] != x {
        IncreasingWithLast(Without(frames[..n], x), time, frames[n]);
      }
    } else {
      assert Without(frames, x) == frames;
    }
  }

  lemma TouchKeepsOrder(recency: seq<nat>, time: map<nat, nat>, frame: nat, now: nat)
    requires Ordered(recency, time) && forall f | f in time :: time[f] < now
    ensures Ordered(Without(recency, frame) + [frame], time[frame := now])
  {
    hide Without;
    WithoutKeepsIncreasing(recency, time, frame);
    var r := Without(recency, frame);
    forall k | 0 <= k < |r|
      ensures r[k] in time && r[k] != frame
    {
      assert r[k] in r;
    }
  }

  class LruReplacement {
    var accessTime: map<nat, nat>
    var clock: nat
    ghost var recency: seq<nat>

    ghost predicate Valid()
      reads this
    {
      && Ordered(recency, accessTime)
      && forall f | f in accessTime :: accessTime[f] <= clock
    }

    constructor ()
      ensures Valid() && recency == []
    {
      accessTime, clock, recency := map[], 0, [];
    }

    /** Both events make the frame the most recently used one. */
    method Touch(frame: nat)
      requires Valid()
      modifies this
      ensures Valid()
      ensures recency == Without(old(recency), frame) + [frame]
    {
      hide Ordered, Without;
      TouchKeepsOrder(recency, accessTime, frame, clock + 1);
      clock := clock + 1;
      accessTime := accessTime[frame := clock];
      recency := Without(recency, frame) + [frame];
    }

    /** The smallest time stamp, in whatever order the table is scanned, is the least recent use. */
    method SelectVictim() returns (victim: Option<nat>)
      requires Valid()
      modifies this
      ensures Valid()
      ensures old(recency) == [] ==> victim == None && recency == []
      ensures old(recency) != [] ==> victim.Some? && old(recency) == [victim.value] + recency
    {
      hide Ordered;
      EmptyTogether(recency, accessTime);
      if accessTime == map[] {
        return None;
      }
      var best := MinElement(accessTime);
      victim := Some(best);
      LeastIsFirst(recency, accessTime, best);
      accessTime := accessTime - {best};
      recency := recency[1..];
    }
  }

  lemma EmptyTogether(recency: seq<nat>, time: map<nat, nat>)
    requires Ordered(recency, time)
    ensures recency == [] <==> time == map[]
  {
    assert recency == [] || recency[0] in recency;
    if recency == [] {
      assert forall f :: f !in time;
    }
  }

  lemma LeastIsFirst(recency: seq<nat>, time: map<nat, nat>, best: nat)
    requires Ordered(recency, time) && best in time && forall f | f in time :: time[best] <= time[f]
    ensures recency != [] && recency[0] == best
    ensures Ordered(recency[1..], time - {best})
  {
    var i :| 0 <= i < |recency| && recency[i] == best;
    assert recency[0] in recency;
    forall f
      ensures f in recency[1..] <==> f in time && f != best
    {
      if f in recency[1..] {
        var j :| 0 <= j < |recency[1..]| && recency[1..][j] == f;
        assert recency[j + 1] == f;
      } else if f in time {
        assert f in recency;
      }
    }
  }

  /** A key with the smallest value; the keys are visited in any order. */
  method MinElement(m: map<nat, nat>) returns (best: nat)
    requires m != map[]
    ensures best in m && forall f | f in m :: m[best] <= m[f]
  {
    best :| best in m;
    var rest := m.Keys - {best};
    while rest != {}
      invariant rest <= m.Keys && best in m
      invariant forall f | f in m && f !in rest :: m[best] <= m[f]
      decreases |rest|
    {
      var f :| f in rest;
      rest := rest - {f};
      if m[f] < m[best] {
        best := f;
      }
    }
  }

  // ---------------------------------------------------------------- second chance

  /** The place `i` moves after `hand` on a dial of `n` places. */
  function Place(hand: nat, i: nat, n: nat): (p: nat)
    requires hand < n
    ensures p < n
  {
    if i == 0 then hand
    else if Place(hand, i - 1, n) + 1 == n then 0
    else Place(hand, i - 1, n) + 1
  }

  /** The frame that the hand points at after `i` moves. */
  function Around(frames: seq<nat>, hand: nat, i: nat): nat
    requires hand < |frames|
  {
    frames[Place(hand, i, |frames|)]
  }

  /** The frames passed by the hand in `j` moves. */
  ghost function Passed(frames: seq<nat>, hand: nat, j: nat): set<nat>
    requires hand < |frames|
  {
    set i | 0 <= i < j :: Around(frames, hand, i)
  }

  /**
   The scan stops after `j` moves: every frame before was seen for the first time with its bit
   set, and lost it; the frame reached has no bit, or lost it earlier in this scan.
   */
  ghost predicate StopsAt(frames: seq<nat>, refBits: set<nat>, hand: nat, j: nat)
    requires hand < |frames|
  {
    && (forall i | 0 <= i < j :: Around(frames, hand, i) in refBits - Passed(frames, hand, i))
    && Around(frames, hand, j) !in refBits - Passed(frames, hand, j)
  }

  class ClockReplacement {
    var frames: seq<nat>
    var refBits: set<nat>
    var hand: nat

    ghost predicate Valid()
      reads this
    {
      if frames == [] then hand == 0 else hand < |frames|
    }

    constructor ()
      ensures Valid() && frames == [] && refBits == {}
    {
      frames, refBits, hand := [], {}, 0;
    }

    /** Clears one reference bit a move, so the scan ends; the hand stays in range. */
    method SelectVictim() returns (victim: Option<nat>, ghost moves: nat)
      requires Valid()
      modifies this
      ensures Valid()
      ensures victim.None? <==> old(frames) == []
      ensures victim.None? ==> unchanged(this)
      ensures victim.Some? ==>
                && old(hand) < |old(frames)|
                && StopsAt(old(frames), old(refBits), old(hand), moves)
                && victim.value == Around(old(frames), old(hand), moves)
                && refBits == old(refBits) - Passed(old(frames), old(hand), moves)
                && var at := Place(old(hand), moves, |old(frames)|);
                   && frames == old(frames)[..at] + old(frames)[at + 1..]
                   && hand == (if at < |frames| then at else 0)
    {
      hide Place, Passed;
      PlaceStart(hand, |frames|);
      NothingPassed(frames, hand);
      moves := 0;
      if frames == [] {
        return None, 0;
      }
      while frames[hand] in refBits
        invariant frames == old(frames) && hand == Place(old(hand), moves, |frames|)
        invariant refBits == old(refBits) - Passed(frames, old(hand), moves)
        invariant forall i | 0 <= i < moves :: Around(frames, old(hand), i) in old(refBits) - Passed(frames, old(hand), i)
        decreases |refBits|
      {
        NextPlace(old(hand), moves, |frames|);
        refBits := refBits - {frames[hand]};
        PassedNext(frames, old(hand), moves);
        hand := (hand + 1) % |frames|;
        moves := moves + 1;
      }
      victim := Some(frames[hand]);
      frames := frames[..hand] + frames[hand + 1..];
      HandStays(hand, |frames|);
      hand := if frames != [] then hand % |frames| else 0;
    }

    method OnAccess(frame: nat)
      requires Valid()
      modifies this
      ensures Valid()
      ensures frames == old(frames) && hand == old(hand) && refBits == old(refBits) + {frame}
    {
      refBits := refBits + {frame};
    }

    method OnLoad(frame: nat)
      requires Valid()
      modifies this
      ensures Valid()
      ensures frames == old(frames) + [frame] && hand == old(hand) && refBits == old(refBits) + {frame}
    {
      frames := frames + [frame];
      refBits := refBits + {frame};
    }
  }

  lemma PassedNext(frames: seq<nat>, hand: nat, j: nat)
    requires hand < |frames|
    ensures Passed(frames, hand, j + 1) == Passed(frames, hand, j) + {Around(frames, hand, j)}
  {
    forall x | x in Passed(frames, hand, j) + {Around(frames, hand, j)}
      ensures x in Passed(frames, hand, j + 1)
    {
      if x in Passed(frames, hand, j) {
        var i :| 0 <= i < j && Around(frames, hand, i) == x;
      }
    }
  }

  lemma NextPlace(hand: nat, moves: nat, n: nat)
    requires hand < n
    ensures (Place(hand, moves, n) + 1) % n == Place(hand, moves + 1, n)
  {
    HandStays(Place(hand, moves, n) + 1, n);
  }

  lemma PlaceStart(hand: nat, n: nat)
    ensures hand < n ==> Place(hand, 0, n) == hand
  {
  }

  lemma NothingPassed(frames: seq<nat>, hand: nat)
    ensures hand < |frames| ==> Passed(frames, hand, 0) == {}
  {
  }

  lemma HandStays(hand: nat, n: nat)
    requires hand <= n
    ensures n > 0 ==> hand % n == if hand < n then hand else 0
  {
    if hand < n {
      SmallRemainder(hand, n);
    }
  }

  /**
   The victim is unreferenced, as second chance promises, exactly when no frame stands twice
   between the hand and the first unreferenced frame, `d` moves away.
   */
  lemma SecondChance(frames: seq<nat>, refBits: set<nat>, hand: nat, d: nat, j: nat)
    requires hand < |frames| && StopsAt(frames, refBits, hand, j)
    requires Around(frames, hand, d) !in refBits && forall i | 0 <= i < d :: Around(frames, hand, i) in refBits
    ensures Around(frames, hand, j) !in refBits <==>
            forall a, b | 0 <= a < b < d :: Around(frames, hand, a) != Around(frames, hand, b)
  {
    assert j <= d;
    if Around(frames, hand, j) in refBits {
      var i :| 0 <= i < j && Around(frames, hand, i) == Around(frames, hand, j);
    } else {
      forall a, b | 0 <= a < b < d
        ensures Around(frames, hand, a) != Around(frames, hand, b)
      {
        assert Around(frames, hand, b) !in Passed(frames, hand, b);
      }
    }
  }

  /** With a stale duplicate entry a referenced frame goes although an unreferenced one is loaded. */
  lemma SecondChanceFailsWithDuplicates()
    ensures StopsAt([7, 7, 8], {7}, 0, 1)
    ensures Around([7, 7, 8], 0, 1) in {7} && Around([7, 7, 8], 0, 2) !in {7}
  {
    assert Place(0, 1, 3) == 1 && Place(0, 2, 3) == 2;
    assert Around([7, 7, 8], 0, 0) == 7;
    assert 7 in Passed([7, 7, 8], 0, 1);
  }

  /** The scan stops at one place only. */
  lemma StopsOnce(frames: seq<nat>, refBits: set<nat>, hand: nat, j: nat, k: nat)
    requires hand < |frames| && StopsAt(frames, refBits, hand, j) && StopsAt(frames, refBits, hand, k)
    ensures j == k
  {
    hide Around, Passed;
  }

  /** Two different frames ahead lose their bits; the third is one of them or has none. */
  lemma StopsAtThird(frames: seq<nat>, refBits: set<nat>, hand: nat)
    requires hand < |frames|
    requires Around(frames, hand, 0) in refBits && Around(frames, hand, 1) in refBits
    requires Around(frames, hand, 0) != Around(frames, hand, 1)
    requires Around(frames, hand, 2) == Around(frames, hand, 0) || Around(frames, hand, 2) == Around(frames, hand, 1)
    ensures StopsAt(frames, refBits, hand, 2)
    ensures Passed(frames, hand, 2) == {Around(frames, hand, 0), Around(frames, hand, 1)}
  {
    hide Around;
    NothingPassed(frames, hand);
    PassedNext(frames, hand, 0);
    PassedNext(frames, hand, 1);
  }

  /**
   Such a duplicate comes about: frame 0 is loaded, given up, and loaded again; a first victim
   takes the younger entry of frame 0 and the frame is loaded once more. Then frame 0 goes with
   its bit set although frame 1, loaded and unreferenced, is there.
   */
  method SecondChanceRun(clock: ClockReplacement) returns (victim: Option<nat>, bits: set<nat>)
    requires clock.Valid() && clock.frames == [] && clock.hand == 0 && clock.refBits == {}
    modifies clock
    ensures victim == Some(0) && 0 in bits && 1 !in bits && 1 in clock.frames
  {
    hide StopsAt, Passed;
    clock.OnLoad(0);
    clock.OnLoad(1);
    clock.OnLoad(0);
    clock.OnLoad(2);
    var before := clock.frames;
    assert before == [0, 1, 0, 2];
    assert Place(0, 1, 4) == 1 && Place(0, 2, 4) == 2;
    StopsAtThird(before, clock.refBits, 0);
    ghost var all := clock.refBits;
    ghost var moves;
    victim, moves := clock.SelectVictim();
    StopsOnce(before, all, 0, moves, 2);
    assert before[..2] + before[3..] == [0, 1, 2];
    clock.OnLoad(0);
    before, bits := clock.frames, clock.refBits;
    assert before == [0, 1, 2, 0];
    assert Place(2, 1, 4) == 3 && Place(2, 2, 4) == 0;
    StopsAtThird(before, bits, 2);
    victim, moves := clock.SelectVictim();
    StopsOnce(before, bits, 2, moves, 2);
    assert before[..0] + before[1..] == [1, 2, 0];
    assert clock.frames[0] == 1;
  }

  // ---------------------------------------------------------------- any of the three

  /** FIFO adds an entry for each load; LRU moves the only one. */
  function Reloaded(lru: bool, queue: seq<nat>, frame: nat): seq<nat> {
    (if lru then Without(queue, frame) else queue) + [frame]
  }

  /** The hand goes `moves` steps, clears the bits it passes and takes the entry it stops at. */
  ghost predicate EvictsAfter(frames: seq<nat>, bits: set<nat>, hand: nat, victim: nat,
                              frames': seq<nat>, bits': set<nat>, hand': nat, moves: nat) {
    && hand < |frames| && StopsAt(frames, bits, hand, moves) && victim == Around(frames, hand, moves)
    && bits' == bits - Passed(frames, hand, moves)
    && var at := Place(hand, moves, |frames|);
       frames' == frames[..at] + frames[at + 1..] && hand' == if at < |frames'| then at else 0
  }

  ghost predicate ClockEvicts(frames: seq<nat>, bits: set<nat>, hand: nat, victim: nat,
                              frames': seq<nat>, bits': set<nat>, hand': nat) {
    exists moves: nat :: EvictsAfter(frames, bits, hand, victim, frames', bits', hand', moves)
  }

  /** The recency list of LRU names no frame twice. */
  lemma RecencyIsDistinct(lru: LruReplacement)
    requires lru.Valid()
    ensures Distinct(lru.recency)
  {
  }

  /** The policy that a memory management unit was built with. */
  datatype Policy =
    | Fifo(fifo: FifoReplacement)
    | Lru(lru: LruReplacement)
    | Clock(clock: ClockReplacement)
  {
    ghost function Repr(): set<object> {
      match this
      case Fifo(p) => {p}
      case Lru(p) => {p}
      case Clock(p) => {p}
    }

    ghost predicate Valid()
      reads Repr()
    {
      match this
      case Fifo(p) => true
      case Lru(p) => p.Valid()
      case Clock(p) => p.Valid()
    }

    /** The frames that the policy may name as a victim. */
    ghost function Tracked(): set<nat>
      reads Repr()
    {
      match this
      case Fifo(p) => set f | f in p.loadOrder
      case Lru(p) => set f | f in p.recency
      case Clock(p) => set f | f in p.frames
    }

    /** The tracked frames in the order the policy keeps them, stale and double entries included. */
    ghost function Queue(): seq<nat>
      reads Repr()
    {
      match this
      case Fifo(p) => p.loadOrder
      case Lru(p) => p.recency
      case Clock(p) => p.frames
    }

    /** The frames with a reference bit; only Clock keeps them. */
    ghost function Bits(): set<nat>
      reads Repr()
    {
      match this
      case Clock(p) => p.refBits
      case _ => {}
    }

    ghost function Hand(): nat
      reads Repr()
    {
      match this
      case Clock(p) => p.hand
      case _ => 0
    }

    /** A victim is tracked; every other tracked frame stays so, and none is added. */
    method SelectVictim() returns (victim: Option<nat>)
      requires Valid()
      modifies Repr()
      ensures Valid()
      ensures victim.None? <==> old(Tracked()) == {}
      ensures victim.None? ==> Tracked() == {} && Queue() == old(Queue())
      ensures victim.Some? ==>
                && victim.value in old(Tracked())
                && old(Tracked()) - {victim.value} <= Tracked() <= old(Tracked())
      ensures !Clock? && victim.Some? ==> old(Queue()) == [victim.value] + Queue()
      ensures !Clock? && victim.None? ==> old(Queue()) == []
      ensures Clock? && victim.Some? ==>
                ClockEvicts(old(Queue()), old(Bits()), old(Hand()), victim.value, Queue(), Bits(), Hand())
    {
      match this
      case Fifo(p) =>
        assert |p.loadOrder| > 0 ==> p.loadOrder[0] in Tracked();
        victim := p.SelectVictim();
      case Lru(p) =>
        assert |p.recency| > 0 ==> p.recency[0] in Tracked();
        victim := p.SelectVictim();
      case Clock(p) =>
        assert |p.frames| > 0 ==> p.frames[0] in Tracked();
        ghost var moves;
        victim, moves := p.SelectVictim();
        if victim.Some? {
          RemoveAt(old(p.frames), Place(old(p.hand), moves, |old(p.frames)|));
          assert EvictsAfter(old(p.frames), old(p.refBits), old(p.hand), victim.value, p.frames, p.refBits, p.hand, moves);
        }
    }

    method OnLoad(frame: nat)
      requires Valid()
      modifies Repr()
      ensures Valid()
      ensures Tracked() == old(Tracked()) + {frame}
      ensures !Clock? ==> Queue() == Reloaded(Lru?, old(Queue()), frame)
      ensures Clock? ==> Queue() == old(Queue()) + [frame] && Hand() == old(Hand()) && Bits() == old(Bits()) + {frame}
    {
      hide Ordered, Without;
      match this
      case Fifo(p) => p.OnLoad(frame);
      case Lru(p) =>
        p.Touch(frame);
      case Clock(p) => p.OnLoad(frame);
    }

    method OnAccess(frame: nat)
      requires Valid()
      modifies Repr()
      ensures Valid()
      ensures old(Tracked()) <= Tracked() <= old(Tracked()) + {frame}
      ensures Fifo? ==> Queue() == old(Queue())
      ensures Lru? ==> Queue() == Reloaded(true, old(Queue()), frame)
      ensures Clock? ==> Queue() == old(Queue()) && Hand() == old(Hand()) && Bits() == old(Bits()) + {frame}
    {
      hide Ordered, Without;
      match this
      case Fifo(p) =>
      case Lru(p) =>
        p.Touch(frame);
      case Clock(p) => p.OnAccess(frame);
    }
  }

  lemma RemoveAt(s: seq<nat>, at: nat)
    requires at < |s|
    ensures var r := s[..at] + s[at + 1..];
            forall f :: (f in r ==> f in s) && (f in s && f != s[at] ==> f in r)
  {
    var r := s[..at] + s[at + 1..];
    forall f | f in s && f != s[at]
      ensures f in r
    {
      var i :| 0 <= i < |s| && s[i] == f;
      assert r[if i < at then i else i - 1] == f;
    }
  }
}
