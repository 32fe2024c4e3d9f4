/** When an allocation finds room: which frames it gets, one after the other, under FIFO and LRU. */
module AllocationRoom {
  import opened Core
  import opened PageReplacement

  /**
   Under FIFO, `n` pages find room when frames are free, or else when the entries that come up
   as victims are all owned frames of others: neither frames that were free, nor entries that
   came up before.
   */
  ghost predicate FifoRoom(queue: seq<nat>, free: set<nat>, n: nat) {
    n <= |free| ||
    (var m := n - |free|;
     m <= |queue| && Distinct(queue[..m]) && forall i | 0 <= i < m :: queue[i] !in free)
  }

  // ---------------------------------------------------------------- one page

  /** The process has got `frame`: a free one, or else the next victim, which was not its own. */
  ghost predicate Took(ordered: bool, lru: bool, free: set<nat>, owners: map<nat, nat>, queue: seq<nat>,
                       free': set<nat>, owners': map<nat, nat>, queue': seq<nat>, pid: nat, frame: nat) {
    && owners' == owners[frame := pid] && free' == free - {frame}
    && (frame in owners ==> owners[frame] != pid)
    && if free != {} then frame in free && (ordered ==> queue' == Reloaded(lru, queue, frame))
       else ordered ==> queue != [] && frame == queue[0] && queue' == Reloaded(lru, queue[1..], frame)
  }

  /** The same before the frame is loaded, when the policy has only given up its victim. */
  ghost predicate Got(ordered: bool, free: set<nat>, owners: map<nat, nat>, queue: seq<nat>,
                      free': set<nat>, owners': map<nat, nat>, queue': seq<nat>, pid: nat, frame: nat) {
    && owners' == owners[frame := pid] && free' == free - {frame}
    && (frame in owners ==> owners[frame] != pid)
    && if free != {} then frame in free && queue' == queue
       else ordered ==> queue == [frame] + queue'
  }

  lemma GotThenLoaded(ordered: bool, lru: bool, free: set<nat>, owners: map<nat, nat>, queue: seq<nat>,
                      free': set<nat>, owners': map<nat, nat>, queue1: seq<nat>, queue': seq<nat>, pid: nat, frame: nat)
    requires Got(ordered, free, owners, queue, free', owners', queue1, pid, frame)
    requires ordered ==> queue' == Reloaded(lru, queue1, frame)
    ensures Took(ordered, lru, free, owners, queue, free', owners', queue', pid, frame)
  {
  }

  /** Nothing is free and the next victim is the process's own, or there is none. */
  ghost predicate Stuck(ordered: bool, free: set<nat>, owners: map<nat, nat>, queue: seq<nat>, pid: nat) {
    free == {} && (ordered && queue != [] ==> queue[0] in owners && owners[queue[0]] == pid)
  }

  // ---------------------------------------------------------------- the pages so far

  ghost predicate Owns(owners: map<nat, nat>, pid: nat, own: seq<nat>) {
    Distinct(own) && forall f :: f in own <==> f in owners && owners[f] == pid
  }

  /** The process has the frames `first`, which were free, and the first `k` entries of the queue. */
  ghost predicate FifoProgress(free0: set<nat>, queue0: seq<nat>, free: set<nat>, queue: seq<nat>,
                               first: seq<nat>, k: nat) {
    && Distinct(first) && Members(first) <= free0 && free == free0 - Members(first)
    && k <= |queue0| && (k > 0 ==> free == {})
    && queue == queue0[k..] + (first + queue0[..k])
  }

  /** The process's frames are the most recent ones. */
  ghost predicate LruProgress(queue: seq<nat>, older: seq<nat>, own: seq<nat>) {
    Distinct(queue) && queue == older + own
  }

  lemma SameSize(s: set<nat>, t: set<nat>)
    requires s <= t
    ensures |s| <= |t| && (|s| == |t| ==> s == t)
  {
    assert t == s + (t - s);
  }

  lemma OwnsOneMore(owners: map<nat, nat>, pid: nat, own: seq<nat>, frame: nat)
    requires Owns(owners, pid, own) && (frame in owners ==> owners[frame] != pid)
    ensures Owns(owners[frame := pid], pid, own + [frame])
  {
  }

  // ---------------------------------------------------------------- FIFO

  lemma FifoTakesFree(free0: set<nat>, queue0: seq<nat>, free: set<nat>, queue: seq<nat>, first: seq<nat>, k: nat,
                      frame: nat)
    requires FifoProgress(free0, queue0, free, queue, first, k) && frame in free
    ensures k == 0 && FifoProgress(free0, queue0, free - {frame}, queue + [frame], first + [frame], 0)
  {
    assert Members(first + [frame]) == Members(first) + {frame};
    assert queue0[..0] == [] && queue0[0..] == queue0 && first + [] == first;
    assert queue0 + first + [frame] == queue0 + (first + [frame] + []);
  }

  /** When the free frames are used up, the process has them all. */
  lemma FifoUsedUp(free0: set<nat>, queue0: seq<nat>, queue: seq<nat>, first: seq<nat>, k: nat)
    requires FifoProgress(free0, queue0, {}, queue, first, k)
    ensures Members(first) == free0 && |first| == |free0|
  {
    MembersCount(first);
    assert free0 - Members(first) == {};
    assert forall f | f in free0 :: f in Members(first) || f in free0 - Members(first);
  }

  /** Either the queue still begins with an entry of old, or it holds the process's frames only. */
  lemma FifoFront(free0: set<nat>, queue0: seq<nat>, free: set<nat>, queue: seq<nat>, first: seq<nat>, k: nat)
    requires FifoProgress(free0, queue0, free, queue, first, k)
    ensures if k < |queue0|
            then queue != [] && queue[0] == queue0[k] && queue[1..] == queue0[k + 1..] + (first + queue0[..k])
            else queue == first + queue0[..k]
  {
    if k < |queue0| {
      assert queue0[k..] == [queue0[k]] + queue0[k + 1..];
    } else {
      assert queue0[k..] == [];
    }
  }

  lemma FifoTakesVictim(free0: set<nat>, queue0: seq<nat>, queue: seq<nat>, first: seq<nat>, k: nat)
    requires FifoProgress(free0, queue0, {}, queue, first, k)
    requires queue != [] && queue[0] !in first + queue0[..k]
    ensures k < |queue0| && queue0[k] == queue[0]
    ensures FifoProgress(free0, queue0, {}, queue[1..] + [queue[0]], first, k + 1)
  {
    FifoFront(free0, queue0, {}, queue, first, k);
    assert queue[0] in queue;
    assert queue0[..k + 1] == queue0[..k] + [queue[0]];
    assert first + queue0[..k + 1] == first + queue0[..k] + [queue[0]];
  }

  lemma FifoFound(free0: set<nat>, queue0: seq<nat>, free: set<nat>, queue: seq<nat>, first: seq<nat>, k: nat)
    requires FifoProgress(free0, queue0, free, queue, first, k) && Distinct(first + queue0[..k])
    ensures FifoRoom(queue0, free0, |first| + k)
  {
    if k == 0 {
      MembersCount(first);
      SameSize(Members(first), free0);
    } else {
      FifoUsedUp(free0, queue0, queue, first, k);
      var own := first + queue0[..k];
      assert forall i | 0 <= i < k :: own[|first| + i] == queue0[..k][i] == queue0[i];
      forall i | 0 <= i < k
        ensures queue0[i] !in free0
      {
        assert forall j | 0 <= j < |first| :: own[j] == first[j];
        assert own[|first| + i] !in first;
      }
    }
  }

  lemma FifoStuck(free0: set<nat>, queue0: seq<nat>, queue: seq<nat>, first: seq<nat>, k: nat, n: nat)
    requires FifoProgress(free0, queue0, {}, queue, first, k) && |first| + k < n
    requires queue != [] ==> queue[0] in first + queue0[..k]
    ensures !FifoRoom(queue0, free0, n)
  {
    FifoUsedUp(free0, queue0, queue, first, k);
    FifoFront(free0, queue0, {}, queue, first, k);
    var m := n - |free0|;
    if m <= |queue0| {
      assert queue0[k] in first ==> queue0[k] in free0;
      if queue0[k] in queue0[..k] {
        var j :| 0 <= j < k && queue0[j] == queue0[k];
        assert queue0[..m][j] == queue0[..m][k];
      }
    }
  }

  // ---------------------------------------------------------------- LRU

  lemma LruTakes(queue: seq<nat>, older: seq<nat>, own: seq<nat>, frame: nat)
    requires LruProgress(queue, older, own) && frame !in own
    ensures LruProgress(Reloaded(true, queue, frame), Without(older, frame), own + [frame])
  {
    WithoutKeepsDistinct(queue, frame);
    WithoutBefore(older, own, frame);
    AppendKeepsDistinct(Without(queue, frame), frame);
    assert Without(older, frame) + own + [frame] == Without(older, frame) + (own + [frame]);
  }

  lemma AppendKeepsDistinct(s: seq<nat>, x: nat)
    requires Distinct(s) && x !in s
    ensures Distinct(s + [x])
  {
  }

  lemma {:induction false} WithoutBefore(s: seq<nat>, t: seq<nat>, x: nat)
    requires x !in t
    ensures Without(s + t, x) == Without(s, x) + t
  {
    if t == [] {
      assert s + t == s;
    } else {
      var n := |t| - 1;
      WithoutBefore(s, t[..n], x);
      assert (s + t)[..|s + t| - 1] == s + t[..n];
      assert t == t[..n] + [t[n]];
    }
  }

  lemma LruPops(queue: seq<nat>, older: seq<nat>, own: seq<nat>)
    requires LruProgress(queue, older, own) && queue != [] && queue[0] !in own
    ensures older != [] && queue[0] == older[0] && LruProgress(queue[1..], older[1..], own)
  {
    assert older == [] ==> queue == own;
    assert queue[0] in queue;
    assert (older + own)[1..] == older[1..] + own;
  }

  /** Nobody else has a frame left. */
  lemma LruStuck(queue: seq<nat>, older: seq<nat>, own: seq<nat>)
    requires LruProgress(queue, older, own) && (queue != [] ==> queue[0] in own)
    ensures older == [] && queue == own
  {
    if queue != [] {
      var j :| 0 <= j < |own| && own[j] == queue[0];
      assert queue[|older| + j] == own[j];
    }
  }

  lemma {:induction false} CoversAll(own: seq<nat>, size: nat)
    requires forall f: nat | f < size :: f in own
    ensures size <= |own|
    decreases size
  {
    if size > 0 {
      WithoutIsShorter(own, size - 1);
      CoversAll(Without(own, size - 1), size - 1);
    }
  }

  lemma {:induction false} WithoutIsShorter(s: seq<nat>, x: nat)
    requires x in s
    ensures |Without(s, x)| < |s|
  {
    var n := |s| - 1;
    assert s == s[..n] + [s[n]];
    if s[n] != x {
      WithoutIsShorter(s[..n], x);
    }
  }

  // ---------------------------------------------------------------- the allocation loop

  /** What an allocation started from and what it has got; the last four fields serve FIFO and LRU. */
  datatype Course = Course(free0: set<nat>, queue0: seq<nat>, own: seq<nat>,
                           first: seq<nat>, k: nat, older: seq<nat>)

  ghost predicate OnCourse(fifo: bool, lru: bool, c: Course, free: set<nat>, owners: map<nat, nat>, queue: seq<nat>,
                           pid: nat) {
    && Owns(owners, pid, c.own)
    && (fifo ==> c.k <= |c.queue0| && c.own == c.first + c.queue0[..c.k] &&
                 FifoProgress(c.free0, c.queue0, free, queue, c.first, c.k))
    && (lru ==> LruProgress(queue, c.older, c.own))
  }

  ghost function Started(free: set<nat>, queue: seq<nat>): Course {
    Course(free, queue, [], [], 0, queue)
  }

  ghost function Advanced(c: Course, wasFree: bool, frame: nat): (c': Course)
    ensures |c'.own| == |c.own| + 1 && c'.free0 == c.free0 && c'.queue0 == c.queue0
  {
    c.(own := c.own + [frame],
       first := if wasFree then c.first + [frame] else c.first,
       k := if wasFree then c.k else c.k + 1,
       older := Without(if wasFree || c.older == [] then c.older else c.older[1..], frame))
  }

  lemma CourseStarts(fifo: bool, lru: bool, free: set<nat>, owners: map<nat, nat>, queue: seq<nat>, pid: nat)
    requires (forall f | f in owners :: owners[f] != pid) && (lru ==> Distinct(queue))
    ensures OnCourse(fifo, lru, Started(free, queue), free, owners, queue, pid)
  {
    assert queue[0..] == queue && queue[..0] == [] && queue + [] == queue;
    assert Members<nat>([]) == {} && free - {} == free;
  }

  lemma CourseAdvances(fifo: bool, lru: bool, c: Course, free: set<nat>, owners: map<nat, nat>, queue: seq<nat>,
                       free': set<nat>, owners': map<nat, nat>, queue': seq<nat>, pid: nat, frame: nat)
    requires !(fifo && lru) && OnCourse(fifo, lru, c, free, owners, queue, pid)
    requires Took(fifo || lru, lru, free, owners, queue, free', owners', queue', pid, frame)
    ensures OnCourse(fifo, lru, Advanced(c, free != {}, frame), free', owners', queue', pid)
  {
    hide FifoProgress, LruProgress, Distinct, Without;
    OwnsOneMore(owners, pid, c.own, frame);
    assert frame !in c.own && (free == {} ==> free' == {});
    if fifo {
      if free != {} {
        FifoTakesFree(c.free0, c.queue0, free, queue, c.first, c.k, frame);
        assert c.own + [frame] == c.first + [frame] + c.queue0[..0];
      } else {
        FifoTakesVictim(c.free0, c.queue0, queue, c.first, c.k);
        assert c.own + [frame] == c.first + c.queue0[..c.k + 1];
      }
    }
    if lru {
      if free != {} {
        LruTakes(queue, c.older, c.own, frame);
      } else {
        LruPops(queue, c.older, c.own);
        LruTakes(queue[1..], c.older[1..], c.own, frame);
      }
    }
  }

  /** `n` free frames were taken and queued, in some order. */
  ghost predicate TookFree(free0: set<nat>, queue0: seq<nat>, free: set<nat>, queue: seq<nat>, n: nat) {
    exists first: seq<nat> ::
      |first| == n && Members(first) <= free0 && free == free0 - Members(first) && queue == queue0 + first
  }

  /** As long as frames were free, FIFO has only seen loads. */
  lemma CourseOfFree(lru: bool, c: Course, free: set<nat>, owners: map<nat, nat>, queue: seq<nat>, pid: nat)
    requires OnCourse(true, lru, c, free, owners, queue, pid) && |c.own| <= |c.free0|
    ensures TookFree(c.free0, c.queue0, free, queue, |c.own|)
  {
    if c.k > 0 {
      FifoUsedUp(c.free0, c.queue0, queue, c.first, c.k);
    }
    assert c.queue0[0..] == c.queue0 && c.queue0[..0] == [] && c.first + [] == c.first;
  }

  /** An allocation that got all its pages had room. */
  lemma CourseEnds(fifo: bool, lru: bool, c: Course, free: set<nat>, owners: map<nat, nat>, queue: seq<nat>, pid: nat)
    requires OnCourse(fifo, lru, c, free, owners, queue, pid)
    ensures fifo ==> FifoRoom(c.queue0, c.free0, |c.own|)
  {
    hide FifoRoom, FifoProgress;
    if fifo {
      FifoFound(c.free0, c.queue0, free, queue, c.first, c.k);
    }
  }

  /** An allocation of `n` pages from this start does not succeed. */
  ghost predicate OutOfRoom(fifo: bool, lru: bool, c: Course, size: nat, n: nat) {
    (fifo ==> !FifoRoom(c.queue0, c.free0, n)) && (lru ==> size < n)
  }

  /** An allocation that is stuck had no room: under LRU it already has every frame there is. */
  lemma CourseIsStuck(fifo: bool, lru: bool, c: Course, free: set<nat>, owners: map<nat, nat>, queue: seq<nat>, pid: nat,
                      n: nat, size: nat)
    requires OnCourse(fifo, lru, c, free, owners, queue, pid) && Stuck(fifo || lru, free, owners, queue, pid)
    requires |c.own| < n && (forall f: nat | f < size :: f in owners) && forall f | f in owners :: f in queue
    ensures OutOfRoom(fifo, lru, c, size, n)
  {
    hide FifoRoom, FifoProgress, LruProgress;
    if fifo {
      FifoStuck(c.free0, c.queue0, queue, c.first, c.k, n);
    }
    if lru {
      LruStuck(queue, c.older, c.own);
      CoversAll(c.own, size);
    }
  }
}
