/** Process states and the process control block with its time accounts. */
module ProcessControl {

  datatype ProcessState = New | Ready | Running | Blocked | Suspended | Terminated

  predicate IsValidTransition(from: ProcessState, to: ProcessState) {
    match from
    case New => to == Ready
    case Ready => to == Running || to == Suspended
    case Running => to == Ready || to == Blocked || to == Terminated
    case Blocked => to == Ready || to == Suspended
    case Suspended => to == Ready
    case Terminated => false
  }

  const TICKS: int := 0x1_0000_0000_0000_0000

  /** A 64-bit clock reading. */
  type Tick = t: int | 0 <= t < 0x1_0000_0000_0000_0000

  function Plus(a: Tick, b: Tick): Tick {
    (a + b) % TICKS
  }

  function Minus(a: Tick, b: Tick): Tick {
    (a - b) % TICKS
  }

  /** Ticks from `last` to `now` on a clock that starts over at 2^64. */
  function Elapsed(last: Tick, now: Tick): (e: Tick)
    ensures e == Minus(now, last)
  {
    if last <= now then now - last else now + TICKS - last
  }

  datatype Timing = Timing(arrival: Tick, start: Tick, finish: Tick, lastChange: Tick,
                           cpu: Tick, wait: Tick, blocked: Tick)

  datatype Process = Process(state: ProcessState, timing: Timing)

  function Created(arrival: Tick): Process {
    Process(New, Timing(arrival, 0, 0, arrival, 0, 0, 0))
  }

  /** The time since the last change goes to the account of the state that is left. */
  function Charged(p: Process, now: Tick): Timing {
    var elapsed := Minus(now, p.timing.lastChange);
    match p.state
    case Running => p.timing.(cpu := Plus(p.timing.cpu, elapsed))
    case Ready => p.timing.(wait := Plus(p.timing.wait, elapsed))
    case Blocked => p.timing.(blocked := Plus(p.timing.blocked, elapsed))
    case _ => p.timing
  }

  function Moved(p: Process, to: ProcessState, now: Tick): (q: Process)
    ensures q.state == to && q.timing.lastChange == now && q.timing.arrival == p.timing.arrival
  {
    var t := Charged(p, now);
    Process(to, t.(start := if to == Running && t.start == 0 then now else t.start,
                   finish := if to == Terminated then now else t.finish,
                   lastChange := now))
  }

  /** The control block of a process that is ended: only a running one notes the end. */
  function Ended(p: Process, now: Tick): Process {
    if IsValidTransition(p.state, Terminated) then Moved(p, Terminated, now) else p
  }

  class Pcb {
    const id: nat
    var state: ProcessState
    var timing: Timing

    function Value(): Process
      reads this
    {
      Process(state, timing)
    }

    constructor (id: nat, arrival: Tick)
      ensures this.id == id && Value() == Created(arrival)
    {
      this.id := id;
      state := New;
      timing := Timing(arrival, 0, 0, arrival, 0, 0, 0);
    }

    method SetState(newState: ProcessState, now: Tick) returns (ok: bool)
      modifies this
      ensures ok <==> IsValidTransition(old(state), newState)
      ensures Value() == if ok then Moved(old(Value()), newState, now) else old(Value())
    {
      if !IsValidTransition(state, newState) {
        return false;
      }
      var elapsed := Minus(now, timing.lastChange);
      match state {
        case Running => timing := timing.(cpu := Plus(timing.cpu, elapsed));
        case Ready => timing := timing.(wait := Plus(timing.wait, elapsed));
        case Blocked => timing := timing.(blocked := Plus(timing.blocked, elapsed));
        case _ =>
      }
      if newState == Running && timing.start == 0 {
        timing := timing.(start := now);
      }
      if newState == Terminated {
        timing := timing.(finish := now);
      }
      state := newState;
      timing := timing.(lastChange := now);
      return true;
    }
  }

  // ---------------------------------------------------------------- where the time goes

  datatype Move = Move(to: ProcessState, now: Tick)

  function Lives(p: Process, moves: seq<Move>): Process
    decreases |moves|
  {
    if moves == [] then p
    else if IsValidTransition(p.state, moves[0].to) then Lives(Moved(p, moves[0].to, moves[0].now), moves[1..])
    else Lives(p, moves[1..])
  }

  /** Time spent in states without an account: before admission and while suspended. */
  function Unaccounted(p: Process, moves: seq<Move>): nat
    decreases |moves|
  {
    if moves == [] then 0
    else if !IsValidTransition(p.state, moves[0].to) then Unaccounted(p, moves[1..])
    else
      (if p.state == New || p.state == Suspended then Minus(moves[0].now, p.timing.lastChange) else 0) +
      Unaccounted(Moved(p, moves[0].to, moves[0].now), moves[1..])
  }

  function Accounts(p: Process): nat {
    p.timing.cpu + p.timing.wait + p.timing.blocked
  }

  predicate Whole(x: int) {
    x % TICKS == 0
  }

  lemma WholeSum(x: int, y: int)
    requires Whole(x) && Whole(y)
    ensures Whole(x + y)
  {
  }

  lemma WrapIsWhole(x: int)
    ensures Whole(x % TICKS - x)
  {
  }

  lemma {:induction false} MoveAccounts(p: Process, to: ProcessState, now: Tick)
    requires IsValidTransition(p.state, to)
    ensures var idle := if p.state == New || p.state == Suspended then Minus(now, p.timing.lastChange) else 0;
            var q := Moved(p, to, now);
            Whole(Accounts(q) + idle - Accounts(p) - (q.timing.lastChange - p.timing.lastChange))
  {
    var elapsed := Minus(now, p.timing.lastChange);
    var account := match p.state
      case Running => p.timing.cpu
      case Ready => p.timing.wait
      case Blocked => p.timing.blocked
      case _ => 0;
    WrapIsWhole(now - p.timing.lastChange);
    WrapIsWhole(account + elapsed);
    WholeSum(Minus(now, p.timing.lastChange) - (now - p.timing.lastChange), Plus(account, elapsed) - (account + elapsed));
  }

  /** Whatever a process lives through, its accounts add up to its age, as 64-bit counters can tell. */
  lemma {:induction false} TimeIsAccounted(p: Process, moves: seq<Move>)
    ensures var q := Lives(p, moves);
            Whole(Accounts(q) + Unaccounted(p, moves) - Accounts(p) - (q.timing.lastChange - p.timing.lastChange))
    decreases |moves|
  {
    hide Whole, Moved, Accounts;
    if moves == [] {
      WholeZero();
    } else if IsValidTransition(p.state, moves[0].to) {
      var p' := Moved(p, moves[0].to, moves[0].now);
      MoveAccounts(p, moves[0].to, moves[0].now);
      TimeIsAccounted(p', moves[1..]);
      var idle := if p.state == New || p.state == Suspended then Minus(moves[0].now, p.timing.lastChange) else 0;
      var q := Lives(p', moves[1..]);
      WholeSum(Accounts(p') + idle - Accounts(p) - (p'.timing.lastChange - p.timing.lastChange),
               Accounts(q) + Unaccounted(p', moves[1..]) - Accounts(p') - (q.timing.lastChange - p'.timing.lastChange));
    } else {
      TimeIsAccounted(p, moves[1..]);
    }
  }

  /** From its arrival on, every tick of a process is in an account or spent without one. */
  lemma AgeIsAccounted(arrival: Tick, moves: seq<Move>)
    ensures var q := Lives(Created(arrival), moves);
            && q.timing.arrival == arrival
            && Whole(Accounts(q) + Unaccounted(Created(arrival), moves) - (q.timing.lastChange - arrival))
  {
    hide Whole, Lives, Unaccounted;
    TimeIsAccounted(Created(arrival), moves);
    StampsAreKept(Created(arrival), moves);
  }

  lemma WholeZero()
    ensures Whole(0)
  {
  }

  /**
   Over every life: the first start that is not at tick zero is kept, the end is final, and the
   finish is stamped at the end and only then.
   */
  lemma {:induction false} StampsAreKept(p: Process, moves: seq<Move>)
    ensures var q := Lives(p, moves);
            && (p.timing.start != 0 ==> q.timing.start == p.timing.start)
            && (p.state == Terminated ==> q == p)
            && (p.state != Terminated ==>
                  q.timing.finish == if q.state == Terminated then q.timing.lastChange else p.timing.finish)
            && q.timing.arrival == p.timing.arrival
    decreases |moves|
  {
    if moves != [] {
      StampsAreKept(if IsValidTransition(p.state, moves[0].to) then Moved(p, moves[0].to, moves[0].now) else p, moves[1..]);
    }
  }

  // ---------------------------------------------------------------- each account for itself

  /** The time a life spends in one state, up to its last move. */
  function TimeIn(state: ProcessState, p: Process, moves: seq<Move>): nat
    decreases |moves|
  {
    if moves == [] then 0
    else if !IsValidTransition(p.state, moves[0].to) then TimeIn(state, p, moves[1..])
    else
      (if p.state == state then Elapsed(p.timing.lastChange, moves[0].now) else 0) +
      TimeIn(state, Moved(p, moves[0].to, moves[0].now), moves[1..])
  }

  /** The tick of the first move to running that is not at tick zero; zero if there is none. */
  function FirstRun(p: Process, moves: seq<Move>): Tick
    decreases |moves|
  {
    if moves == [] then 0
    else if !IsValidTransition(p.state, moves[0].to) then FirstRun(p, moves[1..])
    else if moves[0].to == Running && moves[0].now != 0 then moves[0].now
    else FirstRun(Moved(p, moves[0].to, moves[0].now), moves[1..])
  }

  /** The account of a state: cpu, waiting or blocked time. */
  function AccountOf(state: ProcessState, p: Process): Tick {
    match state
    case Running => p.timing.cpu
    case Ready => p.timing.wait
    case Blocked => p.timing.blocked
    case _ => 0
  }

  lemma OneMoveTells(state: ProcessState, p: Process, to: ProcessState, now: Tick)
    requires state in {Running, Ready, Blocked}
    ensures Whole(AccountOf(state, Moved(p, to, now)) - AccountOf(state, p) -
                  (if p.state == state then Elapsed(p.timing.lastChange, now) else 0))
  {
    WrapIsWhole(AccountOf(state, p) + Elapsed(p.timing.lastChange, now));
  }

  /**
   Over every life, cpu time is the time spent running, waiting time the time spent ready and
   blocked time the time spent blocked, as 64-bit counters can tell.
   */
  lemma {:induction false} AccountsTellStates(state: ProcessState, p: Process, moves: seq<Move>)
    requires state in {Running, Ready, Blocked}
    ensures Whole(AccountOf(state, Lives(p, moves)) - AccountOf(state, p) - TimeIn(state, p, moves))
    decreases |moves|
  {
    hide Whole, Moved, Elapsed, AccountOf;
    if moves == [] {
      WholeZero();
    } else if IsValidTransition(p.state, moves[0].to) {
      var m := Moved(p, moves[0].to, moves[0].now);
      OneMoveTells(state, p, moves[0].to, moves[0].now);
      AccountsTellStates(state, m, moves[1..]);
      WholeSum(AccountOf(state, m) - AccountOf(state, p) -
               (if p.state == state then Elapsed(p.timing.lastChange, moves[0].now) else 0),
               AccountOf(state, Lives(m, moves[1..])) - AccountOf(state, m) - TimeIn(state, m, moves[1..]));
    } else {
      AccountsTellStates(state, p, moves[1..]);
    }
  }

  /** The start is the first run. */
  lemma {:induction false} StartIsFirstRun(p: Process, moves: seq<Move>)
    requires p.timing.start == 0
    ensures Lives(p, moves).timing.start == FirstRun(p, moves)
    decreases |moves|
  {
    hide Elapsed;
    if moves != [] {
      if IsValidTransition(p.state, moves[0].to) {
        var m := Moved(p, moves[0].to, moves[0].now);
        if m.timing.start == 0 {
          StartIsFirstRun(m, moves[1..]);
        } else {
          StampsAreKept(m, moves[1..]);
        }
      } else {
        StartIsFirstRun(p, moves[1..]);
      }
    }
  }

  /** Exactly a running process can end, at that tick; then it never moves again. */
  lemma EndedIs(p: Process, now: Tick)
    ensures var q := Ended(p, now);
            if p.state == Running then
              q.state == Terminated && q.timing.finish == q.timing.lastChange == now &&
              Whole(q.timing.cpu - p.timing.cpu - Elapsed(p.timing.lastChange, now))
            else q == p
    ensures Ended(p, now).state == Terminated ==> forall moves :: Lives(Ended(p, now), moves) == Ended(p, now)
  {
    hide Whole;
    OneMoveTells(Running, p, Terminated, now);
    if Ended(p, now).state == Terminated {
      forall moves
        ensures Lives(Ended(p, now), moves) == Ended(p, now)
      {
        StampsAreKept(Ended(p, now), moves);
      }
    }
  }

  /** Who can go where: told from the state that is entered. */
  lemma StatesEntered(from: ProcessState, to: ProcessState)
    ensures IsValidTransition(from, to) ==> to != New && from != Terminated && from != to
    ensures to == Running ==> (IsValidTransition(from, to) <==> from == Ready)
    ensures to in {Blocked, Terminated} ==> (IsValidTransition(from, to) <==> from == Running)
    ensures to == Suspended ==> (IsValidTransition(from, to) <==> from in {Ready, Blocked})
    ensures to == Ready ==> (IsValidTransition(from, to) <==> from in {New, Running, Blocked, Suspended})
  {
  }
}
