/** Every step of every thread keeps the pool's invariant. */
module DispatcherPoolSafety {
  import opened Core
  import opened DispatcherPool

  // ---------------------------------------------------------------- counting

  lemma {:induction false} ReportedAfter(workers: seq<Worker>, token: nat, w: nat, x: Worker)
    requires w < |workers|
    ensures Reported(workers[w := x], token) ==
            Reported(workers, token) - (if Finished(workers[w], token) then 1 else 0) + (if Finished(x, token) then 1 else 0)
  {
    var n := |workers| - 1;
    if w < n {
      assert workers[w := x][..n] == workers[..n][w := x];
      ReportedAfter(workers[..n], token, w, x);
    } else {
      assert workers[w := x][..n] == workers[..n];
    }
  }

  lemma {:induction false} ReportedAll(workers: seq<Worker>, token: nat)
    ensures Reported(workers, token) <= |workers|
    ensures Reported(workers, token) == |workers| <==> AllFinished(workers, token)
  {
    if workers != [] {
      var n := |workers| - 1;
      ReportedAll(workers[..n], token);
      assert forall w | 0 <= w < n :: workers[..n][w] == workers[w];
    }
  }

  lemma {:induction false} ReportedNone(workers: seq<Worker>, token: nat)
    requires forall w | 0 <= w < |workers| :: workers[w].seen != token
    ensures Reported(workers, token) == 0
  {
    if workers != [] {
      ReportedNone(workers[..|workers| - 1], token);
    }
  }

  lemma {:induction false} TotalAfter(runs: seq<nat>, i: nat, x: nat)
    requires i < |runs|
    ensures Total(runs[i := x]) == Total(runs) - runs[i] + x
  {
    var n := |runs| - 1;
    if i < n {
      assert runs[i := x][..n] == runs[..n][i := x];
      TotalAfter(runs[..n], i, x);
    } else {
      assert runs[i := x][..n] == runs[..n];
    }
  }

  lemma {:induction false} TotalOf(runs: seq<nat>, x: nat)
    requires forall i | 0 <= i < |runs| :: runs[i] == x
    ensures Total(runs) == x * |runs|
  {
    if runs != [] {
      TotalOf(runs[..|runs| - 1], x);
    }
  }

  lemma {:induction false} FlattenAppend(traces: seq<seq<Event>>, w: nat, e: Event)
    requires w < |traces|
    ensures multiset(Flatten(traces[w := traces[w] + [e]])) == multiset(Flatten(traces)) + multiset{e}
  {
    var n := |traces| - 1;
    var t := traces[w := traces[w] + [e]];
    if w < n {
      assert t[..n] == traces[..n][w := traces[..n][w] + [e]];
      FlattenAppend(traces[..n], w, e);
      assert t[n] == traces[n];
    } else {
      assert t[..n] == traces[..n];
      assert t[n] == traces[n] + [e];
    }
  }

  lemma {:induction false} FlattenEmpty(traces: seq<seq<Event>>)
    requires forall w | 0 <= w < |traces| :: traces[w] == []
    ensures Flatten(traces) == []
  {
    if traces != [] {
      FlattenEmpty(traces[..|traces| - 1]);
    }
  }

  // ---------------------------------------------------------------- congruence

  lemma NextOfStride(i: nat, k: nat)
    requires 0 < k
    ensures (i + k) % k == i % k
  {
    var q, r := i / k, i % k;
    assert i + k == (q + 1) * k + r;
    Remainder(q + 1, k, r);
  }

  lemma Remainder(q: nat, k: nat, r: nat)
    requires r < k
    ensures (q * k + r) % k == r
  {
    var x := q * k + r;
    var a, b := x / k, x % k;
    assert (q - a) * k == b - r;
    assert q - a >= 1 ==> (q - a) * k >= k;
    assert q - a <= -1 ==> (q - a) * k <= 0 - k;
  }

  /** Between a lane and the next of its stride there is no other lane of that stride. */
  lemma NoLaneBetween(i: nat, j: nat, k: nat)
    requires 0 < k && j % k == i % k && i < j
    ensures i + k <= j
  {
    var a, b := i / k, j / k;
    assert j - i == (b - a) * k;
    assert b - a >= 1 ==> (b - a) * k >= k;
    assert b - a <= 0 ==> (b - a) * k <= 0;
  }

  // ---------------------------------------------------------------- one worker moves on

  /** A worker that has taken the token takes another phase and stays unreported. */
  lemma MoveKeepsTokens(workers: seq<Worker>, takes: seq<nat>, token: nat, completed: nat, w: nat, p: Phase)
    requires w < |workers| == |takes| && Tokens(workers, takes, token, completed)
    requires workers[w].seen == token && !workers[w].phase.Sleeping?
    ensures Tokens(workers[w := workers[w].(phase := p)], takes, token, completed + (if p.Sleeping? then 1 else 0))
  {
    ReportedAfter(workers, token, w, workers[w].(phase := p));
  }

  lemma WakeKeepsTokens(workers: seq<Worker>, takes: seq<nat>, token: nat, completed: nat, w: nat, p: Phase)
    requires w < |workers| == |takes| && Tokens(workers, takes, token, completed)
    requires workers[w].seen != token && !p.Sleeping?
    ensures Tokens(workers[w := Worker(p, token)], takes[w := takes[w] + 1], token, completed)
  {
    ReportedAfter(workers, token, w, Worker(p, token));
  }

  // ---------------------------------------------------------------- static stride

  lemma WakeKeepsStrides(workers: seq<Worker>, token: nat, active: nat, runs: seq<nat>, w: nat)
    requires 0 < active <= |workers| && Strides(workers, token, active, runs)
    requires w < |workers| && workers[w].seen != token
    ensures Strides(workers[w := Worker(if w < active then AtHead(w) else Leaving, token)], token, active, runs)
  {
    var workers' := workers[w := Worker(if w < active then AtHead(w) else Leaving, token)];
    if w < active {
      SmallRemainder(w, active);
    }
    forall i | 0 <= i < |runs|
      ensures runs[i] == if i < Bound(workers'[i % active], token, |runs|) then 1 else 0
    {
      if i % active == w && i < w {
        SmallRemainder(i, active);
      }
    }
  }

  /** Moving to a phase with the same bound changes nothing. */
  lemma MoveKeepsStrides(workers: seq<Worker>, token: nat, active: nat, runs: seq<nat>, w: nat, p: Phase)
    requires 0 < active <= |workers| && Strides(workers, token, active, runs)
    requires w < |workers| && OnStride(p, w, active)
    requires var b := Bound(workers[w].(phase := p), token, |runs|);
             b == Bound(workers[w], token, |runs|) || (|runs| <= b && |runs| <= Bound(workers[w], token, |runs|))
    ensures Strides(workers[w := workers[w].(phase := p)], token, active, runs)
  {
    var workers' := workers[w := workers[w].(phase := p)];
    forall i | 0 <= i < |runs|
      ensures runs[i] == if i < Bound(workers'[i % active], token, |runs|) then 1 else 0
    {
    }
  }

  lemma EndKeepsStrides(workers: seq<Worker>, token: nat, active: nat, runs: seq<nat>, w: nat, i: nat)
    requires 0 < active <= |workers| && Strides(workers, token, active, runs)
    requires w < active && workers[w] == Worker(InLane(i), token) && i < |runs|
    ensures Strides(workers[w := Worker(AtHead(i + active), token)], token, active, runs[i := 1])
  {
    var workers', runs' := workers[w := Worker(AtHead(i + active), token)], runs[i := 1];
    assert OnStride(workers[w].phase, w, active);
    NextOfStride(i, active);
    forall j | 0 <= j < |runs'|
      ensures runs'[j] == if j < Bound(workers'[j % active], token, |runs'|) then 1 else 0
    {
      assert runs[j] == if j < Bound(workers[j % active], token, |runs|) then 1 else 0;
      if j % active == w && i < j {
        NoLaneBetween(i, j, active);
      }
    }
  }

  lemma BeginOnStride(workers: seq<Worker>, token: nat, active: nat, runs: seq<nat>, runner: seq<nat>, w: nat, i: nat)
    requires 0 < active <= |workers| && Strides(workers, token, active, runs) && |runs| == |runner|
    requires w < |workers| && workers[w] == Worker(AtHead(i), token) && i < |runs|
    requires Inside(workers, active, runs, runner)
    ensures var workers' := workers[w := Worker(InLane(i), token)];
            Strides(workers', token, active, runs) && Inside(workers', active, runs, runner[i := w])
  {
    assert OnStride(workers[w].phase, w, active);
    MoveKeepsStrides(workers, token, active, runs, w, InLane(i));
    var workers' := workers[w := Worker(InLane(i), token)];
    forall v | 0 <= v < |workers'| && workers'[v].phase.InLane?
      ensures var l := workers'[v].phase.lane; l < |runs| && runs[l] == 0 && runner[i := w][l] == v && v < active
    {
      assert OnStride(workers'[v].phase, v, active);
    }
  }

  // ---------------------------------------------------------------- work stealing

  lemma WakeKeepsSteals(workers: seq<Worker>, token: nat, active: nat, runs: seq<nat>, runner: seq<nat>, nextLane: nat,
                        w: nat)
    requires |runs| == |runner| && Steals(workers, token, active, runs, runner, nextLane)
    requires w < |workers| && workers[w].phase.Sleeping?
    ensures Steals(workers[w := Worker(if w < active then Fetching else Leaving, token)],
                   token, active, runs, runner, nextLane)
  {
  }

  lemma BeginBySteal(workers: seq<Worker>, token: nat, active: nat, runs: seq<nat>, runner: seq<nat>, i: nat, w: nat)
    requires |runs| == |runner| && Steals(workers, token, active, runs, runner, i)
    requires Inside(workers, active, runs, runner)
    requires w < |workers| && w < active && workers[w] == Worker(Fetching, token) && i < |runs|
    ensures var workers' := workers[w := Worker(InLane(i), token)];
            && Steals(workers', token, active, runs, runner[i := w], i + 1)
            && Inside(workers', active, runs, runner[i := w])
  {
    var workers' := workers[w := Worker(InLane(i), token)];
    forall v | 0 <= v < |workers'| && workers'[v].phase.InLane?
      ensures var l := workers'[v].phase.lane; l < |runs| && runs[l] == 0 && runner[i := w][l] == v && v < active
    {
      if v != w {
        assert Stealing(workers[v], token, v < active, |runs|, i);
      }
    }
    forall v | 0 <= v < |workers'|
      ensures Stealing(workers'[v], token, v < active, |runs|, i + 1)
    {
      assert Stealing(workers[v], token, v < active, |runs|, i);
    }
  }

  lemma OutOfLanes(workers: seq<Worker>, token: nat, active: nat, runs: seq<nat>, runner: seq<nat>, i: nat, w: nat)
    requires |runs| == |runner| && Steals(workers, token, active, runs, runner, i)
    requires w < |workers| && workers[w] == Worker(Fetching, token) && |runs| <= i
    ensures Steals(workers[w := Worker(Leaving, token)], token, active, runs, runner, i + 1)
  {
    var workers' := workers[w := Worker(Leaving, token)];
    forall v | 0 <= v < |workers'|
      ensures Stealing(workers'[v], token, v < active, |runs|, i + 1)
    {
      assert Stealing(workers[v], token, v < active, |runs|, i);
    }
  }

  lemma EndKeepsSteals(workers: seq<Worker>, token: nat, active: nat, runs: seq<nat>, runner: seq<nat>, nextLane: nat,
                       w: nat, i: nat)
    requires |runs| == |runner| && Steals(workers, token, active, runs, runner, nextLane)
    requires w < |workers| && w < active && workers[w] == Worker(InLane(i), token) && i < |runs|
    ensures Steals(workers[w := Worker(Fetching, token)], token, active, runs[i := 1], runner, nextLane)
  {
    assert Stealing(workers[w], token, w < active, |runs|, nextLane);
  }

  lemma LeaveKeepsSteals(workers: seq<Worker>, token: nat, active: nat, runs: seq<nat>, runner: seq<nat>, nextLane: nat,
                         w: nat)
    requires |runs| == |runner| && Steals(workers, token, active, runs, runner, nextLane)
    requires w < |workers| && workers[w].phase.Leaving?
    ensures Steals(workers[w := workers[w].(phase := Sleeping)], token, active, runs, runner, nextLane)
  {
    assert Stealing(workers[w], token, w < active, |runs|, nextLane);
  }

  // ---------------------------------------------------------------- leaving a lane

  lemma EndKeepsInside(workers: seq<Worker>, active: nat, runs: seq<nat>, runner: seq<nat>, w: nat, i: nat, p: Phase)
    requires |runs| == |runner| && Inside(workers, active, runs, runner)
    requires w < |workers| && workers[w].phase == InLane(i) && i < |runs| && !p.InLane?
    ensures Inside(workers[w := workers[w].(phase := p)], active, runs[i := 1], runner)
  {
  }

  lemma EndKeepsLog(log: seq<Event>, runs: seq<nat>, deterministic: bool, traceSequence: nat, epoch: nat, e: Event)
    requires Logged(log, runs, deterministic, traceSequence, epoch)
    requires e.lane < |runs| && runs[e.lane] == 0 && e.epoch == epoch
    requires e.sequence == if deterministic then e.lane else traceSequence
    ensures Logged(log + [e], runs[e.lane := 1], deterministic,
                   if deterministic then traceSequence else traceSequence + 1, epoch)
  {
    TotalAfter(runs, e.lane, 1);
  }

  lemma EndKeepsCredit(log: seq<Event>, stride: bool, active: nat, e: Event)
    requires 0 < active && Credited(log, stride, active)
    requires e.worker < active && (stride ==> e.worker == e.lane % active)
    ensures Credited(log + [e], stride, active)
  {
  }

  lemma WorkerOfLane(workers: seq<Worker>, token: nat, active: nat, runs: seq<nat>, w: nat)
    requires 0 < active <= |workers| && Strides(workers, token, active, runs)
    requires w < |workers| && workers[w].phase.InLane?
    ensures workers[w].phase.lane % active == w
  {
    assert OnStride(workers[w].phase, w, active);
  }

  lemma EndKeepsBuffers(traces: seq<seq<Event>>, log: seq<Event>, w: nat, e: Event)
    requires w < |traces| && Buffered(traces, log)
    ensures Buffered(traces[w := traces[w] + [e]], log + [e])
  {
    FlattenAppend(traces, w, e);
  }

  // ---------------------------------------------------------------- steps

  lemma PostKeepsInv<L>(s: Pool<L>, lanes: seq<L>, act: L -> (L, ErrorCode), isDispatch: bool)
    requires Inv(s) && !s.waiting && lanes != []
    ensures Inv(DoPost(s, lanes, act, isDispatch))
  {
    var t := DoPost(s, lanes, act, isDispatch);
    assert forall w | 0 <= w < |s.workers| :: Finished(s.workers[w], s.token);
    ReportedNone(t.workers, t.token);
    FlattenEmpty(t.traces);
    TotalOf(t.runs, 0);
  }

  /** A worker that is neither asleep nor unaware of the job is part of a posted job. */
  lemma AtWork<L>(s: Pool<L>, w: nat)
    requires Inv(s) && w < |s.workers| && !s.workers[w].phase.Sleeping?
    ensures s.waiting && s.workers[w].seen == s.token
  {
    assert !s.waiting ==> Finished(s.workers[w], s.token);
    assert s.waiting ==> Token(s.workers[w], s.takes[w], s.token);
  }

  lemma WakeKeepsInv<L>(s: Pool<L>, w: nat)
    requires Inv(s) && Enabled(s, Wake(w))
    ensures Inv(DoWake(s, w))
  {
    hide Tokens, Strides, Steals, Lanes, Logged, Buffered, Credited;
    assert s.waiting by {
      assert !s.waiting ==> Finished(s.workers[w], s.token);
    }
    var t := DoWake(s, w);
    WakeKeepsTokens(s.workers, s.takes, s.token, s.completed, w, t.workers[w].phase);
    if Stride(s) {
      WakeKeepsStrides(s.workers, s.token, s.active, s.runs, w);
    } else {
      WakeKeepsSteals(s.workers, s.token, s.active, s.runs, s.runner, s.nextLane, w);
    }
  }

  lemma BeginKeepsInv<L>(s: Pool<L>, w: nat)
    requires Inv(s) && Enabled(s, Begin(w))
    ensures Inv(DoBegin(s, w))
  {
    AtWork(s, w);
    if Stride(s) {
      StrideBeginKeepsInv(s, w);
    } else {
      StealBeginKeepsInv(s, w);
    }
  }

  lemma StrideBeginKeepsInv<L>(s: Pool<L>, w: nat)
    requires Inv(s) && Enabled(s, Begin(w)) && s.waiting && Stride(s) && s.workers[w].seen == s.token
    ensures Inv(DoBegin(s, w))
  {
    hide Tokens, Lanes, Logged, Buffered, Credited;
    var t := DoBegin(s, w);
    assert OnStride(s.workers[w].phase, w, s.active);
    var i := s.workers[w].phase.next;
    MoveKeepsTokens(s.workers, s.takes, s.token, s.completed, w, t.workers[w].phase);
    if i < |s.lanes| {
      BeginOnStride(s.workers, s.token, s.active, s.runs, s.runner, w, i);
    } else {
      MoveKeepsStrides(s.workers, s.token, s.active, s.runs, w, Leaving);
    }
  }

  lemma StealBeginKeepsInv<L>(s: Pool<L>, w: nat)
    requires Inv(s) && Enabled(s, Begin(w)) && s.waiting && !Stride(s) && s.workers[w].seen == s.token
    ensures Inv(DoBegin(s, w))
  {
    hide Tokens, Lanes, Logged, Buffered, Credited;
    var t, i := DoBegin(s, w), s.nextLane;
    assert Stealing(s.workers[w], s.token, w < s.active, |s.runs|, i);
    MoveKeepsTokens(s.workers, s.takes, s.token, s.completed, w, t.workers[w].phase);
    if i < |s.lanes| {
      BeginBySteal(s.workers, s.token, s.active, s.runs, s.runner, i, w);
    } else {
      OutOfLanes(s.workers, s.token, s.active, s.runs, s.runner, i, w);
    }
  }

  lemma EndKeepsInv<L>(s: Pool<L>, w: nat)
    requires Inv(s) && Enabled(s, End(w))
    ensures s.waiting && s.workers[w].phase.lane < |s.lanes|
    ensures Inv(DoEnd(s, w))
  {
    hide Tokens, Strides, Steals, Logged, Buffered, Credited;
    AtWork(s, w);
    var t, i := DoEnd(s, w), s.workers[w].phase.lane;
    MoveKeepsTokens(s.workers, s.takes, s.token, s.completed, w, t.workers[w].phase);
    EndKeepsInside(s.workers, s.active, s.runs, s.runner, w, i, t.workers[w].phase);
    EndKeepsLog(s.log, s.runs, s.deterministic, s.traceSequence, s.epoch, NewEvent(s, w, i));
    EndKeepsBuffers(s.traces, s.log, w, NewEvent(s, w, i));
    if Stride(s) {
      WorkerOfLane(s.workers, s.token, s.active, s.runs, w);
    }
    EndKeepsCredit(s.log, Stride(s), s.active, NewEvent(s, w, i));
    if Stride(s) {
      EndKeepsStrides(s.workers, s.token, s.active, s.runs, w, i);
    } else {
      EndKeepsSteals(s.workers, s.token, s.active, s.runs, s.runner, s.nextLane, w, i);
    }
    assert Lane(s.lanes[i], s.start[i], s.act, s.isDispatch, s.runs[i], s.errors[i]);
  }

  lemma LeaveKeepsInv<L>(s: Pool<L>, w: nat)
    requires Inv(s) && Enabled(s, Leave(w))
    ensures Inv(DoLeave(s, w))
  {
    hide Tokens, Lanes, Steals, Logged, Buffered, Credited;
    AtWork(s, w);
    MoveKeepsTokens(s.workers, s.takes, s.token, s.completed, w, Sleeping);
    if Stride(s) {
      MoveKeepsStrides(s.workers, s.token, s.active, s.runs, w, Sleeping);
    } else {
      LeaveKeepsSteals(s.workers, s.token, s.active, s.runs, s.runner, s.nextLane, w);
    }
  }

  lemma CollectKeepsInv<L>(s: Pool<L>, merged: seq<Event>)
    requires Inv(s) && Enabled(s, Collect(merged))
    ensures Inv(DoCollect(s, merged))
  {
    ReportedAll(s.workers, s.token);
  }

  /** Safety: whatever thread moves, and in whatever order, the invariant holds. */
  lemma StepKeepsInv<L>(s: Pool<L>, step: Step<L>)
    requires Inv(s) && Enabled(s, step)
    ensures Inv(After(s, step))
  {
    hide Inv;
    match step
    case Post(lanes, act, isDispatch) => PostKeepsInv(s, lanes, act, isDispatch);
    case Wake(w) => WakeKeepsInv(s, w);
    case Begin(w) => BeginKeepsInv(s, w);
    case End(w) => EndKeepsInv(s, w);
    case Leave(w) => LeaveKeepsInv(s, w);
    case Collect(merged) => CollectKeepsInv(s, merged);
  }
}
