/** What a replacement policy has been told and has answered, and what FIFO and LRU make of it. */
module ReplacementHistory {
  import opened Core
  import opened PageReplacement

  /** A frame was loaded, accessed, or named as the victim. */
  datatype Use = Loaded(frame: nat) | Accessed(frame: nat) | Evicted(frame: nat)

  type Uses = seq<Use>

  // ---------------------------------------------------------------- least recently used

  /** When the frame was last loaded or accessed, counted from one; zero if it was evicted since, or never used. */
  ghost function LastUse(h: Uses, f: nat): nat {
    if h == [] then 0
    else
      var n := |h| - 1;
      if h[n].frame != f then LastUse(h[..n], f) else if h[n].Evicted? then 0 else |h|
  }

  /** The queue holds exactly the frames in use, by their last use. */
  ghost predicate ByLastUse(queue: seq<nat>, h: Uses) {
    && (forall f :: f in queue <==> LastUse(h, f) > 0)
    && forall i, j | 0 <= i < j < |queue| :: LastUse(h, queue[i]) < LastUse(h, queue[j])
  }

  /** The frames loaded and not yet taken, in the order of loading, each load counting. */
  ghost function LoadsLeft(h: Uses): seq<nat> {
    if h == [] then []
    else
      var n := |h| - 1;
      var before := LoadsLeft(h[..n]);
      if h[n].Loaded? then before + [h[n].frame]
      else if h[n].Evicted? && before != [] then before[1..]
      else before
  }

  lemma LastUseAfter(h: Uses, u: Use, f: nat)
    ensures LastUse(h + [u], f) == if u.frame != f then LastUse(h, f) else if u.Evicted? then 0 else |h| + 1
  {
    assert (h + [u])[..|h|] == h;
  }

  lemma LoadsLeftAfter(h: Uses, u: Use)
    ensures LoadsLeft(h + [u]) ==
            if u.Loaded? then LoadsLeft(h) + [u.frame]
            else if u.Evicted? && LoadsLeft(h) != [] then LoadsLeft(h)[1..]
            else LoadsLeft(h)
  {
    assert (h + [u])[..|h|] == h;
  }

  lemma {:induction false} LastUseIsPast(h: Uses, f: nat)
    ensures LastUse(h, f) <= |h|
  {
    if h != [] {
      LastUseIsPast(h[..|h| - 1], f);
    }
  }

  ghost predicate Rising(queue: seq<nat>, h: Uses) {
    forall i, j | 0 <= i < j < |queue| :: LastUse(h, queue[i]) < LastUse(h, queue[j])
  }

  lemma {:induction false} WithoutStaysRising(queue: seq<nat>, h: Uses, x: nat)
    requires Rising(queue, h)
    ensures Rising(Without(queue, x), h)
  {
    hide LastUse;
    if queue != [] {
      var n := |queue| - 1;
      WithoutStaysRising(queue[..n], h, x);
      var r := Without(queue[..n], x);
      forall k | 0 <= k < |r|
        ensures LastUse(h, r[k]) < LastUse(h, queue[n])
      {
        assert r[k] in r;
        assert r[k] in queue[..n];
      }
    }
  }

  /** The frame is in use, and no frame in use has been used less recently. */
  ghost predicate Oldest(h: Uses, f: nat) {
    LastUse(h, f) > 0 && forall g | LastUse(h, g) > 0 :: LastUse(h, f) <= LastUse(h, g)
  }

  ghost predicate First(h: Uses, f: nat) {
    LoadsLeft(h) != [] && f == LoadsLeft(h)[0]
  }

  /** A load or an access makes the frame the latest. */
  lemma UseKeepsOrder(queue: seq<nat>, h: Uses, u: Use)
    requires ByLastUse(queue, h) && !u.Evicted?
    ensures ByLastUse(Reloaded(true, queue, u.frame), h + [u])
  {
    hide LastUse, Without;
    var r := Without(queue, u.frame);
    WithoutStaysRising(queue, h, u.frame);
    forall f
      ensures LastUse(h + [u], f) == (if u.frame != f then LastUse(h, f) else |h| + 1) && LastUse(h, f) <= |h|
    {
      LastUseAfter(h, u, f);
      LastUseIsPast(h, f);
    }
    forall k | 0 <= k < |r|
      ensures r[k] != u.frame
    {
      assert r[k] in r;
    }
  }

  /** The victim leaves from the front, where the oldest last use is. */
  lemma EvictionKeepsOrder(queue: seq<nat>, h: Uses)
    requires ByLastUse(queue, h) && queue != []
    ensures ByLastUse(queue[1..], h + [Evicted(queue[0])])
    ensures Oldest(h, queue[0])
  {
    hide LastUse;
    forall f
      ensures LastUse(h + [Evicted(queue[0])], f) == if f == queue[0] then 0 else LastUse(h, f)
    {
      LastUseAfter(h, Evicted(queue[0]), f);
    }
    assert queue == [queue[0]] + queue[1..];
    forall f | f in queue[1..]
      ensures f != queue[0]
    {
    }
    assert queue[0] in queue;
    forall f | LastUse(h, f) > 0
      ensures LastUse(h, queue[0]) <= LastUse(h, f)
    {
      assert f in queue;
    }
  }

  // ---------------------------------------------------------------- what the policies keep

  /** Every victim in the history was the tracked frame with the oldest last use. */
  ghost predicate EvictsOldest(h: Uses) {
    forall k | 0 <= k < |h| && h[k].Evicted? :: Oldest(h[..k], h[k].frame)
  }

  /** Every victim in the history was the first load left. */
  ghost predicate EvictsFirst(h: Uses) {
    forall k | 0 <= k < |h| && h[k].Evicted? :: First(h[..k], h[k].frame)
  }

  /** The victims of a history, in order. */
  ghost function Victims(h: Uses): seq<nat> {
    if h == [] then [] else Victims(h[..|h| - 1]) + (if h[|h| - 1].Evicted? then [h[|h| - 1].frame] else [])
  }

  ghost function Loads(h: Uses): seq<nat> {
    if h == [] then [] else Loads(h[..|h| - 1]) + (if h[|h| - 1].Loaded? then [h[|h| - 1].frame] else [])
  }

  /** FIFO gives frames up in the order in which they were loaded: the victims so far are the first loads. */
  lemma {:induction false} FifoOrder(h: Uses)
    requires EvictsFirst(h)
    ensures Loads(h) == Victims(h) + LoadsLeft(h)
  {
    if h != [] {
      var n := |h| - 1;
      forall k | 0 <= k < n && h[..n][k].Evicted?
        ensures First(h[..n][..k], h[..n][k].frame)
      {
        assert h[..n][..k] == h[..k];
      }
      FifoOrder(h[..n]);
      if h[n].Evicted? {
        assert First(h[..n], h[n].frame);
        var left := LoadsLeft(h[..n]);
        assert left == [left[0]] + left[1..];
      }
    }
  }

  /** A use appended to the history keeps what all victims satisfy, if the new one does. */
  lemma HistoryGrows(h: Uses, u: Use)
    ensures EvictsOldest(h) && (u.Evicted? ==> Oldest(h, u.frame)) ==> EvictsOldest(h + [u])
    ensures EvictsFirst(h) && (u.Evicted? ==> First(h, u.frame)) ==> EvictsFirst(h + [u])
  {
    hide Oldest, First;
    var h' := h + [u];
    forall k | 0 <= k < |h'|
      ensures h'[..k] == if k < |h| then h[..k] else h
    {
    }
  }

  // ---------------------------------------------------------------- one event

  /** The queue is what the history makes of it, and so were all victims. */
  ghost predicate Heard(fifo: bool, lru: bool, queue: seq<nat>, h: Uses) {
    && (lru ==> ByLastUse(queue, h) && EvictsOldest(h))
    && (fifo ==> queue == LoadsLeft(h) && EvictsFirst(h))
  }

  lemma NothingHeard(fifo: bool, lru: bool)
    ensures Heard(fifo, lru, [], [])
  {
  }

  lemma HearLoad(fifo: bool, lru: bool, queue: seq<nat>, h: Uses, f: nat)
    requires Heard(fifo, lru, queue, h) && !(fifo && lru)
    ensures Heard(fifo, lru, Reloaded(lru, queue, f), h + [Loaded(f)])
  {
    hide ByLastUse, EvictsOldest, EvictsFirst, LoadsLeft;
    HistoryGrows(h, Loaded(f));
    LoadsLeftAfter(h, Loaded(f));
    if lru {
      UseKeepsOrder(queue, h, Loaded(f));
    }
  }

  /** An access counts for LRU and leaves FIFO alone. */
  lemma HearAccess(fifo: bool, lru: bool, queue: seq<nat>, h: Uses, f: nat)
    requires Heard(fifo, lru, queue, h) && !(fifo && lru)
    ensures Heard(fifo, lru, if lru then Reloaded(true, queue, f) else queue, h + [Accessed(f)])
  {
    hide ByLastUse, EvictsOldest, EvictsFirst, LoadsLeft;
    HistoryGrows(h, Accessed(f));
    LoadsLeftAfter(h, Accessed(f));
    if lru {
      UseKeepsOrder(queue, h, Accessed(f));
    }
  }

  lemma HearEviction(fifo: bool, lru: bool, queue: seq<nat>, h: Uses, queue': seq<nat>, f: nat)
    requires Heard(fifo, lru, queue, h) && queue == [f] + queue'
    ensures Heard(fifo, lru, queue', h + [Evicted(f)])
  {
    hide ByLastUse, EvictsOldest, EvictsFirst, Oldest, LoadsLeft;
    assert queue[0] == f && queue[1..] == queue';
    HistoryGrows(h, Evicted(f));
    LoadsLeftAfter(h, Evicted(f));
    if lru {
      EvictionKeepsOrder(queue, h);
    }
  }
}
