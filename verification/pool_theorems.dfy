/** What a posted job amounts to, under every interleaving. */
module DispatcherPoolTheorems {
  import opened Core
  import opened LaneDispatch
  import opened DispatcherPool
  import opened DispatcherPoolSafety

  // ---------------------------------------------------------------- the coordinator returns

  lemma NoneLeftToSteal(workers: seq<Worker>, token: nat, active: nat, runs: seq<nat>, runner: seq<nat>, nextLane: nat,
                        i: nat)
    requires |runs| == |runner| && Steals(workers, token, active, runs, runner, nextLane)
    requires AllFinished(workers, token) && |runs| <= nextLane && i < |runs|
    ensures runs[i] != 0
  {
    var w := runner[i];
    assert w < |workers| ==> Finished(workers[w], token);
  }

  /** When the coordinator may return, every worker took the token once and is out of every lane. */
  lemma CollectFindsAllDone<L>(s: Pool<L>, merged: seq<Event>)
    requires Inv(s) && Enabled(s, Collect(merged))
    ensures forall w | 0 <= w < |s.workers| :: Finished(s.workers[w], s.token) && s.takes[w] == 1
    ensures forall i | 0 <= i < |s.lanes| :: s.runs[i] == 1
  {
    ReportedAll(s.workers, s.token);
    assert forall w | 0 <= w < |s.workers| :: Token(s.workers[w], s.takes[w], s.token);
    assert Finished(s.workers[0], s.token);
    assert !Stride(s) ==> Stealing(s.workers[0], s.token, 0 < s.active, |s.runs|, s.nextLane);
    forall i | 0 <= i < |s.lanes|
      ensures s.runs[i] == 1
    {
      assert Lane(s.lanes[i], s.start[i], s.act, s.isDispatch, s.runs[i], s.errors[i]);
      assert Stride(s) ==> Finished(s.workers[i % s.active], s.token);
      if !Stride(s) {
        NoneLeftToSteal(s.workers, s.token, s.active, s.runs, s.runner, s.nextLane, i);
      }
    }
  }

  /** The lanes and the recorded outcomes are those of the serial runtime. */
  lemma CollectEqualsSerial<L>(s: Pool<L>, merged: seq<Event>)
    requires Inv(s) && Enabled(s, Collect(merged))
    ensures s.lanes == LanesAfter(s.start, s.act)
    ensures s.isDispatch ==> s.errors == CodesAfter(s.start, s.act)
  {
    CollectFindsAllDone(s, merged);
    forall i | 0 <= i < |s.lanes|
      ensures s.lanes[i] == s.act(s.start[i]).0
      ensures s.isDispatch ==> s.errors[i] == s.act(s.start[i]).1
    {
      assert Lane(s.lanes[i], s.start[i], s.act, s.isDispatch, s.runs[i], s.errors[i]);
    }
  }

  /** No two workers are ever in the same lane, and nobody is in a lane that has run. */
  lemma OneWorkerPerLane<L>(s: Pool<L>, v: nat, w: nat)
    requires Inv(s) && v < |s.workers| && w < |s.workers|
    requires s.workers[v].phase.InLane? && s.workers[w].phase.InLane?
    ensures s.workers[v].phase.lane == s.workers[w].phase.lane ==> v == w
    ensures s.waiting && s.workers[v].phase.lane < |s.runs| && s.runs[s.workers[v].phase.lane] == 0
  {
    hide Strides, Steals, Lanes, Logged, Buffered, Credited;
    AtWork(s, v);
  }

  // ---------------------------------------------------------------- the merged trace

  /** Increasing numbers below their count are 0, 1, 2, ... */
  lemma {:induction false} IncreasingIsIdentity(xs: seq<nat>, k: nat)
    requires forall i, j | 0 <= i < j < |xs| :: xs[i] < xs[j]
    requires forall i | 0 <= i < |xs| :: xs[i] < |xs|
    requires k < |xs|
    ensures xs[k] == k
  {
    AtLeastItsPlace(xs, k);
    AtMostItsPlace(xs, k);
  }

  lemma {:induction false} AtLeastItsPlace(xs: seq<nat>, k: nat)
    requires forall i, j | 0 <= i < j < |xs| :: xs[i] < xs[j]
    requires k < |xs|
    ensures k <= xs[k]
  {
    if k > 0 {
      AtLeastItsPlace(xs, k - 1);
    }
  }

  lemma {:induction false} AtMostItsPlace(xs: seq<nat>, k: nat)
    requires forall i, j | 0 <= i < j < |xs| :: xs[i] < xs[j]
    requires forall i | 0 <= i < |xs| :: xs[i] < |xs|
    requires k < |xs|
    ensures xs[k] <= k
    decreases |xs| - k
  {
    if k + 1 < |xs| {
      AtMostItsPlace(xs, k + 1);
    }
  }

  lemma OccursTwice(es: seq<Event>, a: nat, b: nat)
    requires a < b < |es|
    ensures es[a] == es[b] ==> multiset(es)[es[a]] >= 2
  {
    assert es == es[..a] + [es[a]] + es[a + 1..b] + [es[b]] + es[b + 1..];
  }

  lemma OccursOnce(es: seq<Event>, i: nat)
    requires i < |es| && forall j, k | 0 <= j < k < |es| :: es[j].sequence != es[k].sequence
    ensures multiset(es)[es[i]] == 1
  {
    assert es == es[..i] + [es[i]] + es[i + 1..];
    assert es[i] !in es[..i] && es[i] !in es[i + 1..];
  }

  /** Events with distinct sequence numbers stay distinct in any order. */
  lemma PermutationKeepsDistinct(log: seq<Event>, merged: seq<Event>, a: nat, b: nat)
    requires multiset(merged) == multiset(log)
    requires forall j, k | 0 <= j < k < |log| :: log[j].sequence != log[k].sequence
    requires a < b < |merged|
    ensures merged[a].sequence != merged[b].sequence
  {
    assert merged[a] in multiset(merged) && merged[b] in multiset(merged);
    var i :| 0 <= i < |log| && log[i] == merged[a];
    var j :| 0 <= j < |log| && log[j] == merged[b];
    OccursOnce(log, i);
    OccursTwice(merged, a, b);
  }

  lemma LogNumbers(log: seq<Event>, runs: seq<nat>, deterministic: bool, traceSequence: nat, epoch: nat)
    requires Logged(log, runs, deterministic, traceSequence, epoch)
    requires forall i | 0 <= i < |runs| :: runs[i] == 1
    ensures |log| == |runs|
    ensures forall k | 0 <= k < |log| :: log[k].sequence < |log| && log[k].epoch == epoch
    ensures forall j, k | 0 <= j < k < |log| :: log[j].sequence != log[k].sequence
  {
    TotalOf(runs, 1);
  }

  /**
   The merged trace is numbered 0, 1, 2, ... with the epoch of the job; in deterministic mode
   event k belongs to lane k, otherwise the trace is the order of execution.
   */
  lemma MergedTrace<L>(s: Pool<L>, merged: seq<Event>)
    requires Inv(s) && Enabled(s, Collect(merged))
    ensures |merged| == |s.lanes|
    ensures forall k | 0 <= k < |merged| :: merged[k].sequence == k && merged[k].epoch == s.epoch
    ensures s.deterministic ==> forall k | 0 <= k < |merged| :: merged[k].lane == k
    ensures !s.deterministic ==> merged == s.log
    ensures forall k | 0 <= k < |merged| ::
              && merged[k].worker < s.active <= |s.workers|
              && (Stride(s) ==> merged[k].worker == merged[k].lane % s.active)
    ensures s.deterministic ==>
              |DoCollect(s, merged).order| == |s.lanes| &&
              forall k | 0 <= k < |s.lanes| :: DoCollect(s, merged).order[k] == k
  {
    CollectFindsAllDone(s, merged);
    LogNumbers(s.log, s.runs, s.deterministic, s.traceSequence, s.epoch);
    hide Inv, Enabled;
    SortedLog(s.log, merged, s.epoch);
    forall k | 0 <= k < |merged|
      ensures merged[k] in s.log
    {
      assert merged[k] in multiset(merged);
    }
  }

  lemma SortedLog(log: seq<Event>, merged: seq<Event>, epoch: nat)
    requires multiset(merged) == multiset(log) && SortedBySequence(merged)
    requires forall k | 0 <= k < |log| :: log[k].sequence < |log| && log[k].epoch == epoch
    requires forall j, k | 0 <= j < k < |log| :: log[j].sequence != log[k].sequence
    ensures |merged| == |log|
    ensures forall k | 0 <= k < |merged| :: merged[k].sequence == k && merged[k].epoch == epoch && merged[k] in log
  {
    assert |merged| == |multiset(merged)|;
    assert |log| == |multiset(log)|;
    var xs := seq(|merged|, k requires 0 <= k < |merged| => merged[k].sequence);
    forall k | 0 <= k < |merged|
      ensures merged[k] in log
    {
      assert merged[k] in multiset(merged);
    }
    forall i, j | 0 <= i < j < |xs|
      ensures xs[i] < xs[j]
    {
      PermutationKeepsDistinct(log, merged, i, j);
    }
    forall k | 0 <= k < |merged|
      ensures merged[k].sequence == k
    {
      assert xs[k] == merged[k].sequence;
      IncreasingIsIdentity(xs, k);
    }
  }

  // ---------------------------------------------------------------- every job ends

  /** Steps a worker has before it, not counting lanes. */
  ghost function Weight(w: Worker, token: nat): nat {
    if w.seen != token then 3
    else
      match w.phase
      case Sleeping => 0
      case Leaving => 1
      case InLane(_) => 1
      case _ => 2
  }

  ghost function Weights(workers: seq<Worker>, token: nat): nat {
    if workers == [] then 0
    else Weights(workers[..|workers| - 1], token) + Weight(workers[|workers| - 1], token)
  }

  lemma {:induction false} WeightsAfter(workers: seq<Worker>, token: nat, w: nat, x: Worker)
    requires w < |workers|
    ensures Weights(workers[w := x], token) == Weights(workers, token) - Weight(workers[w], token) + Weight(x, token)
  {
    var n := |workers| - 1;
    if w < n {
      assert workers[w := x][..n] == workers[..n][w := x];
      WeightsAfter(workers[..n], token, w, x);
    } else {
      assert workers[w := x][..n] == workers[..n];
    }
  }

  lemma {:induction false} TotalAtMost(runs: seq<nat>)
    requires forall i | 0 <= i < |runs| :: runs[i] <= 1
    ensures Total(runs) <= |runs|
  {
    if runs != [] {
      TotalAtMost(runs[..|runs| - 1]);
    }
  }

  /** An upper bound on the steps until the job is collected. */
  ghost function Remaining<L>(s: Pool<L>): int {
    if s.waiting then 1 + 3 * (|s.runs| - Total(s.runs)) + Weights(s.workers, s.token) else 0
  }

  lemma RemainingIsNatural<L>(s: Pool<L>)
    requires Inv(s)
    ensures Remaining(s) >= if s.waiting then 1 else 0
  {
    hide Tokens, Strides, Steals, Logged, Buffered, Credited, Inside;
    if s.waiting {
      forall i | 0 <= i < |s.runs|
        ensures s.runs[i] <= 1
      {
        assert Lane(s.lanes[i], s.start[i], s.act, s.isDispatch, s.runs[i], s.errors[i]);
      }
      TotalAtMost(s.runs);
    }
  }

  /** A job can only be running, and so only step, while the coordinator waits for it. */
  lemma OnlyWhileWaiting<L>(s: Pool<L>, step: Step<L>)
    requires Inv(s) && Enabled(s, step) && !step.Post?
    ensures s.waiting
  {
    hide JobInv;
    if step.Wake? || step.Begin? || step.End? || step.Leave? {
      assert !s.waiting ==> Finished(s.workers[step.w], s.token);
    }
  }

  /** Every step but a new post brings the job nearer to its end. */
  lemma StepDecreases<L>(s: Pool<L>, step: Step<L>)
    requires Inv(s) && Enabled(s, step) && !step.Post?
    ensures Remaining(After(s, step)) < Remaining(s)
  {
    hide Inv;
    OnlyWhileWaiting(s, step);
    RemainingIsNatural(s);
    match step
    case Collect(merged) =>
    case Wake(w) => WakeDecreases(s, w);
    case Begin(w) => BeginDecreases(s, w);
    case End(w) => EndKeepsInv(s, w); EndDecreases(s, w);
    case Leave(w) => LeaveDecreases(s, w);
  }

  lemma WakeDecreases<L>(s: Pool<L>, w: nat)
    requires Inv(s) && s.waiting && Enabled(s, Wake(w))
    ensures Remaining(DoWake(s, w)) < Remaining(s)
  {
    hide JobInv, Total;
    WeightsAfter(s.workers, s.token, w, DoWake(s, w).workers[w]);
  }

  lemma BeginDecreases<L>(s: Pool<L>, w: nat)
    requires Inv(s) && s.waiting && Enabled(s, Begin(w))
    ensures Remaining(DoBegin(s, w)) < Remaining(s)
  {
    hide Inv, Remaining, Enter;
    AtWork(s, w);
    if s.workers[w].phase.AtHead? {
      EnterDecreases(s, w, s.workers[w].phase.next);
    } else {
      var t := s.(nextLane := s.nextLane + 1);
      EnterDecreases(t, w, s.nextLane);
      SameRemaining(s, t);
    }
  }

  lemma SameRemaining<L>(s: Pool<L>, t: Pool<L>)
    requires t.waiting == s.waiting && t.runs == s.runs && t.workers == s.workers && t.token == s.token
    ensures Remaining(t) == Remaining(s)
  {
  }

  lemma EnterDecreases<L>(s: Pool<L>, w: nat, lane: nat)
    requires s.waiting && w < |s.workers| && Weight(s.workers[w], s.token) == 2
    ensures Remaining(Enter(s, w, lane)) < Remaining(s)
  {
    WeightsAfter(s.workers, s.token, w, Enter(s, w, lane).workers[w]);
  }

  lemma EndDecreases<L>(s: Pool<L>, w: nat)
    requires Inv(s) && Enabled(s, End(w)) && s.waiting && s.workers[w].phase.lane < |s.lanes|
    ensures Remaining(DoEnd(s, w)) < Remaining(s)
  {
    hide JobInv, Total;
    AtWork(s, w);
    var i := s.workers[w].phase.lane;
    WeightsAfter(s.workers, s.token, w, DoEnd(s, w).workers[w]);
    TotalAfter(s.runs, i, s.runs[i] + 1);
  }

  lemma LeaveDecreases<L>(s: Pool<L>, w: nat)
    requires Inv(s) && s.waiting && Enabled(s, Leave(w))
    ensures Remaining(DoLeave(s, w)) < Remaining(s)
  {
    hide Inv, Total;
    AtWork(s, w);
    WeightsAfter(s.workers, s.token, w, DoLeave(s, w).workers[w]);
  }

  // ---------------------------------------------------------------- no deadlock

  ghost function Insert(e: Event, es: seq<Event>): seq<Event> {
    if es == [] then [e]
    else if e.sequence <= es[0].sequence then [e] + es
    else [es[0]] + Insert(e, es[1..])
  }

  lemma {:induction false} InsertKeeps(e: Event, es: seq<Event>)
    ensures multiset(Insert(e, es)) == multiset(es) + multiset{e}
    ensures forall x | x in Insert(e, es) :: x == e || x in es
  {
    if es != [] && es[0].sequence < e.sequence {
      InsertKeeps(e, es[1..]);
      assert es == [es[0]] + es[1..];
    }
  }

  lemma {:induction false} InsertSorts(e: Event, es: seq<Event>)
    requires SortedBySequence(es)
    ensures SortedBySequence(Insert(e, es))
  {
    if es != [] && es[0].sequence < e.sequence {
      InsertSorts(e, es[1..]);
      InsertKeeps(e, es[1..]);
      var r := Insert(e, es[1..]);
      assert forall k | 0 <= k < |r| :: r[k] in r;
    }
  }

  /** Any collection of events can be put in the order the merge asks for. */
  lemma {:induction false} Sortable(es: seq<Event>) returns (r: seq<Event>)
    ensures SortedBySequence(r) && multiset(r) == multiset(es)
  {
    if es == [] {
      r := [];
    } else {
      var t := Sortable(es[1..]);
      InsertSorts(es[0], t);
      InsertKeeps(es[0], t);
      r := Insert(es[0], t);
      assert es == [es[0]] + es[1..];
    }
  }

  /** As long as the coordinator waits, some thread can move. */
  lemma NeverStuck<L>(s: Pool<L>) returns (step: Step<L>)
    requires Inv(s) && s.waiting
    ensures Enabled(s, step) && !step.Post?
  {
    hide Strides, Steals, Lanes, Logged, Buffered, Credited, Inside;
    if s.completed == |s.workers| {
      var merged := Sortable(Flatten(s.traces));
      return Collect(merged);
    }
    ReportedAll(s.workers, s.token);
    var w :| 0 <= w < |s.workers| && !Finished(s.workers[w], s.token);
    assert Token(s.workers[w], s.takes[w], s.token);
    match s.workers[w].phase
    case Sleeping => step := Wake(w);
    case AtHead(_) => step := Begin(w);
    case Fetching => step := Begin(w);
    case InLane(_) => step := End(w);
    case Leaving => step := Leave(w);
  }

  // ---------------------------------------------------------------- whole runs

  /** The steps can be taken one after the other from `s`. */
  ghost predicate Admissible<L>(s: Pool<L>, steps: seq<Step<L>>)
    requires Inv(s)
    decreases |steps|
  {
    steps == [] ||
    (Enabled(s, steps[0]) && (StepKeepsInv(s, steps[0]); Admissible(After(s, steps[0]), steps[1..])))
  }

  ghost function EndOf<L>(s: Pool<L>, steps: seq<Step<L>>): (t: Pool<L>)
    requires Inv(s) && Admissible(s, steps)
    ensures Inv(t)
    decreases |steps|
  {
    if steps == [] then s
    else
      StepKeepsInv(s, steps[0]);
      EndOf(After(s, steps[0]), steps[1..])
  }

  ghost predicate NoPost<L>(steps: seq<Step<L>>) {
    forall i | 0 <= i < |steps| :: !steps[i].Post?
  }

  /** A pool whose workers have just been started. */
  ghost predicate Started<L>(s: Pool<L>) {
    && |s.workers| > 0 && |s.traces| == |s.workers| && |s.takes| == |s.workers|
    && !s.waiting && s.token == 0
    && forall w | 0 <= w < |s.workers| :: s.workers[w] == Worker(Sleeping, 0)
  }

  lemma StartedKeepsInv<L>(s: Pool<L>)
    requires Started(s)
    ensures Inv(s)
  {
    hide JobInv;
    assert AllFinished(s.workers, s.token);
  }

  /** A job takes a bounded number of steps, whatever the interleaving. */
  lemma {:induction false} JobsEnd<L>(s: Pool<L>, steps: seq<Step<L>>)
    requires Inv(s) && Admissible(s, steps) && NoPost(steps)
    ensures |steps| <= Remaining(s)
    decreases |steps|
  {
    hide Inv, Enabled, After, Remaining;
    RemainingIsNatural(s);
    if steps != [] {
      StepKeepsInv(s, steps[0]);
      StepDecreases(s, steps[0]);
      JobsEnd(After(s, steps[0]), steps[1..]);
    }
  }

  /** What a job does and to what is settled when it is posted. */
  ghost predicate SameJob<L>(s: Pool<L>, t: Pool<L>) {
    && t.start == s.start && t.act == s.act && t.isDispatch == s.isDispatch
    && t.epoch == s.epoch && t.deterministic == s.deterministic && t.token == s.token
    && |t.workers| == |s.workers|
  }

  lemma BeginKeepsJob<L>(s: Pool<L>, w: nat)
    requires w < |s.workers|
    ensures SameJob(s, DoBegin(s, w))
  {
    hide Enter;
    if s.workers[w].phase.AtHead? {
      EnterKeepsJob(s, w, s.workers[w].phase.next);
    } else {
      EnterKeepsJob(s.(nextLane := s.nextLane + 1), w, s.nextLane);
    }
  }

  lemma EnterKeepsJob<L>(s: Pool<L>, w: nat, lane: nat)
    requires w < |s.workers|
    ensures SameJob(s, Enter(s, w, lane))
  {
  }

  lemma StepKeepsJob<L>(s: Pool<L>, step: Step<L>)
    requires Inv(s) && Enabled(s, step) && !step.Post?
    ensures SameJob(s, After(s, step))
  {
    hide Inv, JobInv, Flatten, SortedBySequence, DoBegin;
    match step
    case Collect(merged) =>
    case Wake(w) =>
    case Begin(w) => BeginKeepsJob(s, w);
    case End(w) => EndKeepsInv(s, w);
    case Leave(w) =>
  }

  lemma {:induction false} RunKeepsJob<L>(s: Pool<L>, steps: seq<Step<L>>)
    requires Inv(s) && Admissible(s, steps) && NoPost(steps)
    ensures SameJob(s, EndOf(s, steps))
    decreases |steps|
  {
    hide Inv, Enabled, After;
    if steps != [] {
      StepKeepsInv(s, steps[0]);
      StepKeepsJob(s, steps[0]);
      RunKeepsJob(After(s, steps[0]), steps[1..]);
    }
  }

  lemma {:induction false} RunSplits<L>(s: Pool<L>, a: seq<Step<L>>, b: seq<Step<L>>)
    requires Inv(s) && Admissible(s, a + b)
    ensures Admissible(s, a) && Admissible(EndOf(s, a), b) && EndOf(s, a + b) == EndOf(EndOf(s, a), b)
    decreases |a|
  {
    hide Inv, Enabled, After;
    if a == [] {
      assert a + b == b;
    } else {
      assert (a + b)[1..] == a[1..] + b;
      StepKeepsInv(s, a[0]);
      RunSplits(After(s, a[0]), a[1..], b);
    }
  }

  /** With static stride lane i belongs to worker i modulo the workers that have a lane. */
  ghost predicate RanByStride<L>(t: Pool<L>, k: nat, n: nat)
    requires k < |t.merged|
  {
    var active := Min(|t.workers|, n);
    active > 0 && t.merged[k].worker == t.merged[k].lane % active
  }

  /** What the pool shows of a collected job is what the serial runtime would have done. */
  ghost predicate DoneAsSerial<L>(t: Pool<L>, lanes: seq<L>, act: L -> (L, ErrorCode), isDispatch: bool, epoch: nat) {
    && t.lanes == LanesAfter(lanes, act)
    && (isDispatch ==> t.errors == CodesAfter(lanes, act) && SumsUp(CodesAfter(lanes, act), Summary(t.errors)))
    && |t.merged| == |lanes|
    && (forall k | 0 <= k < |lanes| :: t.merged[k].sequence == k && t.merged[k].epoch == epoch)
    && (forall k | 0 <= k < |lanes| :: t.merged[k].worker < Min(|t.workers|, |lanes|))
    && (Stride(t) ==> forall k | 0 <= k < |lanes| :: RanByStride(t, k, |lanes|))
    && (t.deterministic ==>
          |t.order| == |lanes| && forall k | 0 <= k < |lanes| :: t.order[k] == k && t.merged[k].lane == k)
  }

  /**
   Main result. A dispatch or tick posted to an idle pool and collected after any interleaving of
   worker steps leaves the lanes, and for a dispatch the answer, exactly as the serial runtime
   would; every worker took the job once and is asleep again; the trace is numbered in order, in
   deterministic mode lane by lane.
   */
  lemma PoolEqualsSerial<L>(s: Pool<L>, lanes: seq<L>, act: L -> (L, ErrorCode), isDispatch: bool,
                            middle: seq<Step<L>>, merged: seq<Event>)
    requires Inv(s) && NoPost(middle)
    requires Admissible(s, [Post(lanes, act, isDispatch)] + (middle + [Collect(merged)]))
    ensures var t := EndOf(s, [Post(lanes, act, isDispatch)] + (middle + [Collect(merged)]));
            && DoneAsSerial(t, lanes, act, isDispatch, s.epoch + 1)
            && AllFinished(t.workers, s.token + 1)
            && |t.takes| == |t.workers| == |s.workers|
            && forall w | 0 <= w < |t.workers| :: t.takes[w] == 1
  {
    hide Inv, Enabled, Flatten;
    var step := Post(lanes, act, isDispatch);
    RunSplits(s, [step], middle + [Collect(merged)]);
    var p := DoPost(s, lanes, act, isDispatch);
    assert EndOf(s, [step]) == p;
    RunSplits(p, middle, [Collect(merged)]);
    var e := EndOf(p, middle);
    RunKeepsJob(p, middle);
    assert EndOf(e, [Collect(merged)]) == DoCollect(e, merged);
    JobCollected(e, merged);
  }

  lemma JobCollected<L>(e: Pool<L>, merged: seq<Event>)
    requires Inv(e) && Enabled(e, Collect(merged))
    ensures var t := DoCollect(e, merged);
            && DoneAsSerial(t, e.start, e.act, e.isDispatch, e.epoch)
            && AllFinished(t.workers, t.token)
            && |t.takes| == |t.workers|
            && forall w | 0 <= w < |t.workers| :: t.takes[w] == 1
  {
    hide JobInv, Flatten, SortedBySequence;
    CollectFindsAllDone(e, merged);
    CollectEqualsSerial(e, merged);
    MergedTrace(e, merged);
    SummarySumsUp(e.errors);
  }

  /** From any moment of a job, the threads can go on to finish it. */
  lemma {:induction false} JobCanFinish<L>(s: Pool<L>) returns (steps: seq<Step<L>>)
    requires Inv(s)
    ensures Admissible(s, steps) && NoPost(steps) && !EndOf(s, steps).waiting
    decreases Remaining(s)
  {
    hide Inv, Enabled, After, Remaining;
    if !s.waiting {
      steps := [];
    } else {
      var step := NeverStuck(s);
      StepKeepsInv(s, step);
      StepDecreases(s, step);
      RemainingIsNatural(s);
      RemainingIsNatural(After(s, step));
      var rest := JobCanFinish(After(s, step));
      steps := [step] + rest;
      assert steps[1..] == rest;
    }
  }
}
