/**
 The worker pool as a step system. A coordinator posts a job under a new token; workers wake,
 run lanes and report; the coordinator collects when all have reported. Each step is what one
 thread does between two accesses to shared state, and steps of different threads interleave
 in any order.
 */
module DispatcherPool {
  import opened Core

  /** Where a worker stands in its loop. */
  datatype Phase =
    | Sleeping           // waiting for a new token
    | AtHead(next: nat)  // static stride: about to test lane `next`
    | Fetching           // work stealing: about to take a lane from the shared counter
    | InLane(lane: nat)  // running a lane
    | Leaving            // about to report completion

  datatype Worker = Worker(phase: Phase, seen: nat)

  datatype Event = Event(worker: nat, lane: nat, sequence: nat, epoch: nat)

  datatype Pool<!L> = Pool(
    deterministic: bool,
    stealing: bool,
    workers: seq<Worker>,
    token: nat,
    completed: nat,
    waiting: bool,                  // the coordinator has posted a job and not collected it
    lanes: seq<L>,
    act: L -> (L, ErrorCode),       // what the posted job does to a lane
    isDispatch: bool,
    active: nat,
    nextLane: nat,
    errors: seq<ErrorCode>,
    traces: seq<seq<Event>>,
    traceSequence: nat,
    epoch: nat,
    merged: seq<Event>,
    order: seq<nat>,
    // history of the current job
    start: seq<L>,                  // the lanes when the job was posted
    runs: seq<nat>,                 // how often each lane ran
    runner: seq<nat>,               // the last worker to enter each lane
    takes: seq<nat>,                // how often each worker took the token
    log: seq<Event>)                // all trace events in order of execution

  ghost predicate Stride<L>(s: Pool<L>) {
    s.deterministic || !s.stealing
  }

  // ---------------------------------------------------------------- steps

  datatype Step<!L> =
    | Post(lanes: seq<L>, act: L -> (L, ErrorCode), isDispatch: bool)
    | Wake(w: nat)
    | Begin(w: nat)
    | End(w: nat)
    | Leave(w: nat)
    | Collect(merged: seq<Event>)

  ghost function Flatten(traces: seq<seq<Event>>): seq<Event> {
    if traces == [] then [] else Flatten(traces[..|traces| - 1]) + traces[|traces| - 1]
  }

  ghost predicate SortedBySequence(es: seq<Event>) {
    forall i, j | 0 <= i < j < |es| :: es[i].sequence <= es[j].sequence
  }

  /** The guard of a step: the condition its thread waits for. */
  ghost predicate Enabled<L>(s: Pool<L>, step: Step<L>) {
    match step
    case Post(lanes, _, _) => !s.waiting && lanes != []
    case Wake(w) => w < |s.workers| && s.workers[w].phase.Sleeping? && s.workers[w].seen != s.token
    case Begin(w) => w < |s.workers| && (s.workers[w].phase.AtHead? || s.workers[w].phase.Fetching?)
    case End(w) => w < |s.workers| && s.workers[w].phase.InLane?
    case Leave(w) => w < |s.workers| && s.workers[w].phase.Leaving?
    case Collect(merged) =>
      && s.waiting && s.completed == |s.workers|
      && multiset(merged) == multiset(Flatten(s.traces)) && SortedBySequence(merged)
  }

  ghost function SetPhase<L>(s: Pool<L>, w: nat, p: Phase): Pool<L>
    requires w < |s.workers|
  {
    s.(workers := s.workers[w := s.workers[w].(phase := p)])
  }

  ghost function DoPost<L>(s: Pool<L>, lanes: seq<L>, act: L -> (L, ErrorCode), isDispatch: bool): Pool<L> {
    var n := |lanes|;
    s.(waiting := true, lanes := lanes, act := act, isDispatch := isDispatch,
       active := Min(|s.workers|, n), nextLane := 0,
       errors := seq(n, _ => NotFound), traces := seq(|s.traces|, _ => []),
       traceSequence := 0, epoch := s.epoch + 1, completed := 0, token := s.token + 1,
       merged := [], order := [],
       start := lanes, runs := seq(n, _ => 0), runner := seq(n, _ => 0),
       takes := seq(|s.workers|, _ => 0), log := [])
  }

  /** A worker takes the token; those beyond the active ones have nothing to run. */
  ghost function DoWake<L>(s: Pool<L>, w: nat): Pool<L>
    requires w < |s.workers| && w < |s.takes|
  {
    var p := if !s.waiting || s.active <= w then Leaving else if Stride(s) then AtHead(w) else Fetching;
    s.(workers := s.workers[w := Worker(p, s.token)], takes := s.takes[w := s.takes[w] + 1])
  }

  ghost function Enter<L>(s: Pool<L>, w: nat, lane: nat): Pool<L>
    requires w < |s.workers|
  {
    if lane < |s.lanes| && lane < |s.runner| then SetPhase(s, w, InLane(lane)).(runner := s.runner[lane := w])
    else SetPhase(s, w, Leaving)
  }

  ghost function DoBegin<L>(s: Pool<L>, w: nat): Pool<L>
    requires w < |s.workers|
  {
    match s.workers[w].phase
    case AtHead(next) => Enter(s, w, next)
    case _ => Enter(s.(nextLane := s.nextLane + 1), w, s.nextLane)
  }

  ghost function NewEvent<L>(s: Pool<L>, w: nat, lane: nat): Event {
    Event(w, lane, if s.deterministic then lane else s.traceSequence, s.epoch)
  }

  /** The lane has run: its state, its outcome and its trace event are recorded. */
  ghost function DoEnd<L>(s: Pool<L>, w: nat): Pool<L>
    requires w < |s.workers| && w < |s.traces| && s.workers[w].phase.InLane?
    requires var i := s.workers[w].phase.lane; i < |s.lanes| && i < |s.errors| && i < |s.runs|
  {
    var i := s.workers[w].phase.lane;
    var (lane, code) := s.act(s.lanes[i]);
    var e := NewEvent(s, w, i);
    SetPhase(s, w, if Stride(s) then AtHead(i + s.active) else Fetching)
      .(lanes := s.lanes[i := lane],
        errors := if s.isDispatch then s.errors[i := code] else s.errors,
        traces := s.traces[w := s.traces[w] + [e]],
        traceSequence := if s.deterministic then s.traceSequence else s.traceSequence + 1,
        runs := s.runs[i := s.runs[i] + 1],
        log := s.log + [e])
  }

  ghost function DoLeave<L>(s: Pool<L>, w: nat): Pool<L>
    requires w < |s.workers|
  {
    SetPhase(s, w, Sleeping).(completed := s.completed + 1)
  }

  ghost function DoCollect<L>(s: Pool<L>, merged: seq<Event>): Pool<L> {
    s.(waiting := false, active := 0, merged := merged,
       order := if s.deterministic then seq(|merged|, i requires 0 <= i < |merged| => merged[i].sequence) else [])
  }

  // ---------------------------------------------------------------- invariant

  /** The worker has taken the token and reported. */
  ghost predicate Finished(w: Worker, token: nat) {
    w.seen == token && w.phase.Sleeping?
  }

  /** How many workers have reported. */
  ghost function Reported(workers: seq<Worker>, token: nat): nat {
    if workers == [] then 0
    else
      var n := |workers| - 1;
      Reported(workers[..n], token) + (if Finished(workers[n], token) then 1 else 0)
  }

  ghost function Total(runs: seq<nat>): nat {
    if runs == [] then 0 else Total(runs[..|runs| - 1]) + runs[|runs| - 1]
  }

  ghost predicate Shape<L>(s: Pool<L>) {
    && |s.workers| > 0 && |s.traces| == |s.workers| && |s.takes| == |s.workers|
    && (s.waiting ==>
          var n := |s.lanes|;
          && n > 0 && |s.errors| == n && |s.start| == n && |s.runs| == n && |s.runner| == n
          && s.active == Min(|s.workers|, n))
  }

  /** A worker has either taken the current token, exactly once, or still sleeps on the one before. */
  ghost predicate Token(w: Worker, takes: nat, token: nat) {
    if w.seen == token then takes == 1 else w.seen + 1 == token && w.phase.Sleeping? && takes == 0
  }

  ghost predicate Tokens(workers: seq<Worker>, takes: seq<nat>, token: nat, completed: nat)
    requires |takes| == |workers|
  {
    && (forall w | 0 <= w < |workers| :: Token(workers[w], takes[w], token))
    && completed == Reported(workers, token)
  }

  ghost predicate AllFinished(workers: seq<Worker>, token: nat) {
    forall w | 0 <= w < |workers| :: Finished(workers[w], token)
  }

  /** A lane ran at most once, with the effect of running it on its initial state. */
  ghost predicate Lane<L>(lane: L, start: L, act: L -> (L, ErrorCode), isDispatch: bool, runs: nat, error: ErrorCode) {
    if runs == 0 then lane == start && error == NotFound
    else runs == 1 && lane == act(start).0 && error == if isDispatch then act(start).1 else NotFound
  }

  ghost predicate Lanes<L>(lanes: seq<L>, start: seq<L>, act: L -> (L, ErrorCode), isDispatch: bool,
                           runs: seq<nat>, errors: seq<ErrorCode>)
    requires |lanes| == |start| == |runs| == |errors|
  {
    forall i | 0 <= i < |lanes| :: Lane(lanes[i], start[i], act, isDispatch, runs[i], errors[i])
  }

  /** A worker in a lane is alone in it, and the lane has not run yet. */
  ghost predicate Inside(workers: seq<Worker>, active: nat, runs: seq<nat>, runner: seq<nat>)
    requires |runs| == |runner|
  {
    forall w | 0 <= w < |workers| && workers[w].phase.InLane? ::
      var i := workers[w].phase.lane;
      i < |runs| && runs[i] == 0 && runner[i] == w && w < active
  }

  /** With static stride, a worker has run the lanes of its stride below this bound. */
  ghost function Bound(w: Worker, token: nat, n: nat): nat {
    if w.seen != token then 0
    else
      match w.phase
      case AtHead(next) => next
      case InLane(lane) => lane
      case _ => n
  }

  ghost predicate OnStride(p: Phase, w: nat, active: nat)
    requires 0 < active
  {
    && !p.Fetching?
    && (p.AtHead? ==> w < active && p.next % active == w)
    && (p.InLane? ==> p.lane % active == w)
  }

  ghost predicate Strides(workers: seq<Worker>, token: nat, active: nat, runs: seq<nat>)
    requires 0 < active <= |workers|
  {
    && (forall w | 0 <= w < |workers| :: OnStride(workers[w].phase, w, active))
    && (forall i | 0 <= i < |runs| :: runs[i] == if i < Bound(workers[i % active], token, |runs|) then 1 else 0)
  }

  ghost predicate Stealing(worker: Worker, token: nat, isActive: bool, n: nat, nextLane: nat) {
    && !worker.phase.AtHead?
    && (worker.phase.Fetching? ==> isActive)
    && (worker.phase.InLane? ==> worker.phase.lane < nextLane)
    && (isActive && worker.seen == token && (worker.phase.Leaving? || worker.phase.Sleeping?) ==> n <= nextLane)
  }

  ghost predicate Steals(workers: seq<Worker>, token: nat, active: nat, runs: seq<nat>, runner: seq<nat>, nextLane: nat)
    requires |runs| == |runner|
  {
    && (forall w | 0 <= w < |workers| :: Stealing(workers[w], token, w < active, |runs|, nextLane))
    && (forall i | 0 <= i < |runs| && nextLane <= i :: runs[i] == 0)
    && (forall i | 0 <= i < |runs| && i < nextLane && runs[i] == 0 ::
          runner[i] < |workers| && workers[runner[i]].phase == InLane(i))
  }

  /** The log holds one event for each lane that ran. */
  ghost predicate Logged(log: seq<Event>, runs: seq<nat>, deterministic: bool, traceSequence: nat, epoch: nat) {
    && |log| == Total(runs)
    && (!deterministic ==> traceSequence == |log|)
    && (forall k | 0 <= k < |log| ::
          && log[k].lane < |runs| && runs[log[k].lane] == 1
          && log[k].epoch == epoch
          && log[k].sequence == if deterministic then log[k].lane else k)
    && (forall j, k | 0 <= j < k < |log| :: log[j].lane != log[k].lane)
  }

  /** Every event names the worker that ran the lane; with static stride the lane decides which. */
  ghost predicate Credited(log: seq<Event>, stride: bool, active: nat)
    requires 0 < active
  {
    forall k | 0 <= k < |log| ::
      log[k].worker < active && (stride ==> log[k].worker == log[k].lane % active)
  }

  /** The per-worker buffers together hold the log. */
  ghost predicate Buffered(traces: seq<seq<Event>>, log: seq<Event>) {
    multiset(Flatten(traces)) == multiset(log)
  }

  ghost predicate JobInv<L>(s: Pool<L>)
    requires Shape(s) && s.waiting
  {
    && Tokens(s.workers, s.takes, s.token, s.completed)
    && Lanes(s.lanes, s.start, s.act, s.isDispatch, s.runs, s.errors)
    && Inside(s.workers, s.active, s.runs, s.runner)
    && (if Stride(s) then Strides(s.workers, s.token, s.active, s.runs)
        else Steals(s.workers, s.token, s.active, s.runs, s.runner, s.nextLane))
    && Logged(s.log, s.runs, s.deterministic, s.traceSequence, s.epoch)
    && Buffered(s.traces, s.log)
    && Credited(s.log, Stride(s), s.active)
  }

  ghost predicate Inv<L>(s: Pool<L>) {
    Shape(s) && if s.waiting then JobInv(s) else AllFinished(s.workers, s.token)
  }

  /** The state after an enabled step. */
  ghost function After<L>(s: Pool<L>, step: Step<L>): Pool<L>
    requires Inv(s) && Enabled(s, step)
  {
    match step
    case Post(lanes, act, isDispatch) => DoPost(s, lanes, act, isDispatch)
    case Wake(w) => DoWake(s, w)
    case Begin(w) => DoBegin(s, w)
    case End(w) => assert !s.waiting ==> Finished(s.workers[w], s.token); DoEnd(s, w)
    case Leave(w) => DoLeave(s, w)
    case Collect(merged) => DoCollect(s, merged)
  }
}
