/** The dispatcher: processes, their scheduling and their memory, kept in step. */
module ProcessDispatcher {
  import opened Core
  import opened ProcessControl
  import opened SchedulerState
  import opened ProcessScheduler
  import opened PagingState
  import opened MemoryManagement
  import opened VirtualMemorySlots
  import PageReplacement
  import SchedulerOps
  import opened SchedulerLaws

  datatype StopReason = BudgetExhausted | Interrupted | ProcessExited | Error | Halted

  datatype Image = Image(pcb: Pcb, code: seq<Block>)

  function SlotSize(code: seq<Block>): nat {
    Max(1, |code|)
  }

  /** Control blocks and schedulers are no part of a replacement policy. */
  lemma PolicyApart(policy: PageReplacement.Policy, pcb: Pcb, scheduler: Scheduler)
    ensures (pcb as object) !in policy.Repr() && (scheduler as object) !in policy.Repr()
  {
  }

  function Later(clock: Tick, ticks: nat): Tick {
    (clock + ticks) % TICKS
  }

  lemma OneTickLater(clock: Tick, n: nat)
    ensures Plus(Later(clock, n), 1) == Later(clock, n + 1)
  {
  }

  // ---------------------------------------------------------------- the effect of a dispatch on the queues

  /** The process chosen on lane 0, if any. */
  ghost function Chosen(s: Queues, slice: pos, now: Tick): Result<nat>
    requires Placed(s)
  {
    SchedulerOps.Choose(s, 0, slice, now).1
  }

  /** The control block of the chosen process as it begins to run, or goes on running. */
  ghost function ChosenBlock(s: Queues, slice: pos, now: Tick): Process
    requires Placed(s) && Chosen(s, slice, now).Success?
  {
    SchedulerOps.ChooseKeepsPlaced(s, 0, slice, now);
    SchedulerOps.Choose(s, 0, slice, now).0.table[Chosen(s, slice, now).value]
  }

  /** A stopped process goes on running, is blocked or is forgotten, as the reason asks. */
  ghost function Concluded(s: Queues, pid: nat, reason: StopReason, now: Tick): Queues
    requires Placed(s)
  {
    if reason.BudgetExhausted? then s
    else if reason.Interrupted? then SchedulerOps.BlockProcess(s, pid, now).0
    else Drop(s, pid)
  }

  /** The chosen process runs and stops. */
  ghost function Dispatched(s: Queues, slice: pos, now: Tick, reason: StopReason, later: Tick): Queues
    requires Placed(s)
  {
    var (t, chosen) := SchedulerOps.Choose(s, 0, slice, now);
    SchedulerOps.ChooseKeepsPlaced(s, 0, slice, now);
    if chosen.Failure? then t else Concluded(t, chosen.value, reason, later)
  }

  /** With no process, nothing is chosen. */
  lemma NothingToChoose(s: Queues, slice: pos, now: Tick)
    requires Placed(s) && s.table == map[]
    ensures SchedulerOps.Choose(s, 0, slice, now) == (s, Failure(NotFound))
  {
    SomeMember(s.ready[0]);
  }

  /** A dispatch finds a process exactly if one is ready or running, and the chosen one then runs in lane 0. */
  lemma ChosenRuns(s: Queues, slice: pos, now: Tick)
    requires Placed(s)
    ensures Chosen(s, slice, now).Success? <==> HasWork(s, 0)
    ensures Chosen(s, slice, now).Success? ==>
              var t := SchedulerOps.Choose(s, 0, slice, now).0;
              Placed(t) && 0 < |t.running| == |t.ready| && t.running[0] == Some(Chosen(s, slice, now).value)
  {
    hide Placed, SchedulerOps.Choose, OthersKept;
    SchedulerOps.ChooseKeepsPlaced(s, 0, slice, now);
    ChoiceIs(s, 0, slice, now);
    PlacedLanes(SchedulerOps.Choose(s, 0, slice, now).0);
  }

  /**
   A process whose budget is used up still runs, and nothing else has happened; one stopped by an
   interrupt is the last of the blocked ones; one that exited, failed or was halted is gone.
   */
  lemma DispatchedState(s: Queues, slice: pos, now: Tick, reason: StopReason, later: Tick)
    requires Placed(s) && Chosen(s, slice, now).Success?
    ensures var pid, t := Chosen(s, slice, now).value, Dispatched(s, slice, now, reason, later);
            var begun := SchedulerOps.Choose(s, 0, slice, now).0;
            && Placed(t) && pid in s.table && 0 < |begun.running|
            && (reason in {BudgetExhausted, Interrupted} ==> t.table.Keys == s.table.Keys)
            && (reason == BudgetExhausted ==> t == begun && t.running[0] == Some(pid) && t.table[pid].state == Running)
            && (reason == Interrupted ==> ParkedFrom(begun, t, 0, pid, later))
            && (reason !in {BudgetExhausted, Interrupted} ==>
                  GoneFrom(begun, t, pid) && t.table.Keys == s.table.Keys - {pid})
  {
    hide Placed, SchedulerOps.Choose, SchedulerOps.BlockProcess, ProcessControl.Moved, Without, ParkedFrom, OthersKept;
    ChosenRuns(s, slice, now);
    SchedulerOps.ChooseKeepsPlaced(s, 0, slice, now);
    var (t, chosen) := SchedulerOps.Choose(s, 0, slice, now);
    SchedulerOps.BlockKeepsPlaced(t, chosen.value, later);
    BlockIs(t, chosen.value, later);
    DropKeepsPlaced(t, chosen.value);
    DropIs(t, chosen.value);
  }

  lemma BlockedAfterwards(s: Queues, pid: nat, now: Tick)
    requires Placed(s) && pid in s.table && s.table[pid].state == Running
    ensures var (t, r) := SchedulerOps.BlockProcess(s, pid, now);
            r.Success? && pid in t.table && t.table[pid].state == Blocked
  {
    assert HasPlace(s, pid);
  }

  /** The dispatcher and the scheduler know the same control blocks. */
  ghost predicate SameBlocks(images: map<nat, Image>, blocks: map<nat, Pcb>) {
    images.Keys == blocks.Keys && forall pid | pid in images :: images[pid].pcb == blocks[pid]
  }

  /** Every process has a slot for its code, and there are no other slots. */
  ghost predicate SameSlots(images: map<nat, Image>, slots: map<nat, nat>) {
    images.Keys == slots.Keys && forall pid | pid in images :: slots[pid] == SlotSize(images[pid].code)
  }

  lemma InStepWith(images: map<nat, Image>, blocks: map<nat, Pcb>, slots: map<nat, nat>, image: Image, pid: nat)
    requires SameBlocks(images, blocks) && SameSlots(images, slots)
    ensures SameBlocks(images[pid := image], blocks[pid := image.pcb])
    ensures SameSlots(images[pid := image], slots[pid := SlotSize(image.code)])
  {
  }

  lemma InStepWithout(images: map<nat, Image>, blocks: map<nat, Pcb>, slots: map<nat, nat>, pid: nat)
    requires SameBlocks(images, blocks) && SameSlots(images, slots)
    ensures SameBlocks(images - {pid}, blocks - {pid}) && SameSlots(images - {pid}, slots - {pid})
  {
  }

  lemma PolicyApartAll(policy: PageReplacement.Policy, scheduler: Scheduler)
    ensures (scheduler as object) !in policy.Repr()
    ensures forall pcb | pcb in scheduler.processes.Values :: (pcb as object) !in policy.Repr()
  {
  }

  lemma DispatcherApart(policy: PageReplacement.Policy, d: Dispatcher)
    ensures (d as object) !in policy.Repr()
  {
  }

  lemma Keys(images: map<nat, Image>, blocks: map<nat, Pcb>, slots: map<nat, nat>)
    requires SameBlocks(images, blocks) && SameSlots(images, slots)
    ensures images.Keys == blocks.Keys == slots.Keys
  {
  }

  /** A call that touches neither the scheduler nor its control blocks leaves the queues alone. */
  twostate lemma QueuesUntouched(s: Scheduler)
    requires unchanged(s) && forall pcb | pcb in s.processes.Values :: unchanged(pcb)
    requires old(s.Valid())
    ensures s.Valid() && s.State() == old(s.State())
  {
    assert TableOf(s.processes) == old(TableOf(s.processes));
  }

  /** A call that touches no part of the memory leaves its pages alone. */
  twostate lemma MemoryUntouched(vm: VirtualMemory)
    requires unchanged(vm) && unchanged(vm.mmu) && forall o | o in vm.mmu.policy.Repr() :: unchanged(o)
    requires old(vm.Valid())
    ensures vm.Valid() && Pages(vm.mmu.State()) == old(Pages(vm.mmu.State()))
  {
  }

  lemma QueuesInOrder(s: Scheduler)
    requires s.Valid()
    ensures Placed(s.State()) && Identified(s.processes) && s.State().table.Keys == s.processes.Keys
  {
  }

  lemma StateTable(s: Scheduler)
    ensures s.State().table == s.Table()
  {
  }

  lemma LanesOf(s: Scheduler)
    ensures s.State().ready == s.readyByLane
  {
  }

  lemma SlotPages(vm: VirtualMemory, pid: nat)
    requires vm.Valid() && pid in vm.slots
    ensures pid in vm.mmu.pageTables && |vm.mmu.pageTables[pid]| == vm.slots[pid]
    ensures pid in Pages(vm.mmu.State()) && |Pages(vm.mmu.State())[pid]| == vm.slots[pid]
  {
    KeysOfPages(vm.mmu.State(), vm.mmu.State());
  }

  lemma ValidWhenPlaced(s: Scheduler)
    requires s.Wired() && Placed(s.State())
    ensures s.Valid()
  {
  }

  lemma IdOf(blocks: map<nat, Pcb>, pid: nat)
    requires Identified(blocks) && pid in blocks
    ensures blocks[pid].id == pid
  {
  }

  lemma IdsIn(blocks: map<nat, Pcb>, pid: nat)
    requires Identified(blocks) && pid !in blocks
    ensures forall pcb | pcb in blocks.Values :: pcb.id != pid
  {
  }

  lemma BlockOf(images: map<nat, Image>, blocks: map<nat, Pcb>, pid: nat)
    requires SameBlocks(images, blocks) && pid in images
    ensures pid in blocks && images[pid].pcb == blocks[pid]
  {
  }

  /** The pages of `pid` begin with `code` and are no more than its slot. */
  ghost predicate CodeLoaded(pages: map<nat, seq<Block>>, pid: nat, code: seq<Block>) {
    pid in pages && |pages[pid]| == SlotSize(code) && pages[pid][..|code|] == code
  }

  /** A slot is as large as its code, but not empty. */
  lemma SlotSizeIsPositive(code: seq<Block>)
    ensures 0 < SlotSize(code) && |code| <= SlotSize(code)
    ensures SlotSize(code) > |code| ==> code == [] && SlotSize(code) == 1
  {
  }

  lemma MemoryApart(vm: VirtualMemory)
    requires vm.Valid()
    ensures (vm as object) !in vm.mmu.policy.Repr()
  {
  }

  lemma RoomForSlot(vm: VirtualMemory, size: nat)
    ensures vm.HasRoom(size) ==> |vm.slots| < vm.maxSlots
  {
  }

  /** A new slot is resident, so loading code into it never fails. */
  method PlaceCode(vm: VirtualMemory, pid: nat, code: seq<Block>) returns (r: Result<()>)
    requires vm.Valid() && pid !in vm.slots
    modifies vm, vm.mmu, vm.mmu.policy.Repr()
    ensures vm.Valid()
    ensures r.Failure? ==>
              && r.error == OutOfMemory
              && vm.slots == old(vm.slots) && Pages(vm.mmu.State()) == old(Pages(vm.mmu.State()))
    ensures old(vm.HasRoom(SlotSize(code))) ==> r.Success?
    ensures r.Success? && !vm.mmu.policy.Clock? ==> old(vm.HasRoom(SlotSize(code)))
    ensures r.Success? ==>
              && vm.slots == old(vm.slots)[pid := SlotSize(code)]
              && Pages(vm.mmu.State()) - {pid} == old(Pages(vm.mmu.State())) && CodeLoaded(Pages(vm.mmu.State()), pid, code)
  {
    hide VirtualMemory.Valid, VirtualMemory.HasRoom, Inv, Pages, CodeLoaded, SlotSize, AllPresent, SameResidency;
    SlotSizeIsPositive(code);
    RoomForSlot(vm, SlotSize(code));
    var slot := vm.AllocateSlot(pid, SlotSize(code));
    if slot.Failure? {
      return Failure(slot.error);
    }
    SlotPages(vm, pid);
    MemoryApart(vm);
    LoadFresh(vm, pid, code);
    return Success(());
  }

  /** A slot that is resident takes the code whole. */
  method LoadFresh(vm: VirtualMemory, pid: nat, code: seq<Block>)
    requires vm.Valid() && pid in vm.slots && vm.slots[pid] == SlotSize(code)
    requires pid in vm.mmu.pageTables && AllPresent(vm.mmu.pageTables[pid])
    modifies vm.mmu, vm.mmu.policy.Repr()
    ensures vm.Valid()
    ensures Pages(vm.mmu.State()) - {pid} == old(Pages(vm.mmu.State())) - {pid}
    ensures CodeLoaded(Pages(vm.mmu.State()), pid, code)
  {
    hide VirtualMemory.Valid, VirtualMemory.HasRoom, Inv, Pages, FirstAbsent, Overlay, SameResidency;
    SlotSizeIsPositive(code);
    SlotPages(vm, pid);
    NothingAbsent(vm.mmu.pageTables[pid], |code|);
    OverlayReadBack(Pages(vm.mmu.State()), pid, code);
    assert code[..|code|] == code;
    var loaded := vm.LoadSegment(pid, code);
    if loaded.Failure? {
      assert false;
    }
    SlotPages(vm, pid);
  }

  class Dispatcher {
    const scheduler: Scheduler
    const virtualMemory: VirtualMemory
    var clock: Tick
    var processes: map<nat, Image>

    /** Queues in order, memory in order, and the same processes everywhere. */
    ghost predicate Valid()
      reads this, scheduler, scheduler.processes.Values
      reads virtualMemory, virtualMemory.mmu, virtualMemory.mmu.policy.Repr()
    {
      && scheduler.Valid() && virtualMemory.Valid()
      && SameBlocks(processes, scheduler.processes) && SameSlots(processes, virtualMemory.slots)
    }

    constructor (scheduler: Scheduler, virtualMemory: VirtualMemory, clock: Tick)
      requires scheduler.Valid() && virtualMemory.Valid()
      requires scheduler.processes == map[] && virtualMemory.slots == map[]
      ensures Valid() && processes == map[]
      ensures this.scheduler == scheduler && this.virtualMemory == virtualMemory && this.clock == clock
    {
      this.scheduler, this.virtualMemory, this.clock := scheduler, virtualMemory, clock;
      processes := map[];
    }

    ghost function Memory(): map<nat, seq<Block>>
      reads virtualMemory, virtualMemory.mmu
    {
      Pages(virtualMemory.mmu.State())
    }

    /** The code of a new process is loaded into a slot of its own; the queues are not concerned. */
    method LoadImage(pid: nat, code: seq<Block>) returns (r: Result<()>)
      requires scheduler.Valid() && virtualMemory.Valid() && pid !in virtualMemory.slots
      modifies virtualMemory, virtualMemory.mmu, virtualMemory.mmu.policy.Repr()
      ensures scheduler.Valid() && scheduler.State() == old(scheduler.State()) && virtualMemory.Valid()
      ensures r.Failure? ==>
                r.error == OutOfMemory && virtualMemory.slots == old(virtualMemory.slots) && Memory() == old(Memory())
      ensures old(virtualMemory.HasRoom(SlotSize(code))) ==> r.Success?
      ensures r.Success? && !virtualMemory.mmu.policy.Clock? ==> old(virtualMemory.HasRoom(SlotSize(code)))
      ensures r.Success? ==>
                && virtualMemory.slots == old(virtualMemory.slots)[pid := SlotSize(code)]
                && Memory() - {pid} == old(Memory()) && CodeLoaded(Memory(), pid, code)
    {
      hide Scheduler.Valid, Scheduler.State, VirtualMemory.Valid, VirtualMemory.HasRoom, Inv, Pages, Placed, TableOf,
           Identified, CodeLoaded;
      PolicyApartAll(virtualMemory.mmu.policy, scheduler);
      r := PlaceCode(virtualMemory, pid, code);
      QueuesUntouched(scheduler);
    }

    /** Admits a new process whole, with its code in memory, or not at all. */
    method CreateProcess(image: Option<Image>, now: Tick) returns (r: Result<()>)
      requires Valid() && (image.Some? ==> image.value.pcb.state == New)
      modifies this, scheduler, virtualMemory, virtualMemory.mmu, virtualMemory.mmu.policy.Repr()
      modifies if image.Some? then {image.value.pcb} else {}
      ensures Valid() && clock == old(clock)
      ensures image.None? ==> r == Failure(InvalidArgument)
      ensures image.Some? && image.value.pcb.id == INVALID_PID ==> r == Failure(InvalidPid)
      ensures image.Some? && image.value.pcb.id != INVALID_PID && image.value.pcb.id in old(processes) ==>
                r == Failure(AlreadyExists)
      ensures image.Some? && image.value.pcb.id != INVALID_PID && image.value.pcb.id !in old(processes) ==>
                && (r.Failure? ==> r.error == OutOfMemory)
                && (old(virtualMemory.HasRoom(SlotSize(image.value.code))) ==> r.Success?)
      ensures r.Success? && !virtualMemory.mmu.policy.Clock? ==>
                old(virtualMemory.HasRoom(SlotSize(image.value.code)))
      ensures r.Failure? ==> processes == old(processes) && Memory() == old(Memory()) &&
                             scheduler.State() == old(scheduler.State())
      ensures r.Success? ==>
                var pid, code := image.value.pcb.id, image.value.code;
                && pid !in old(processes) && processes == old(processes)[pid := image.value]
                && scheduler.State() ==
                   SchedulerOps.Enqueue(old(scheduler.State()), pid, old(image.value.pcb.Value()), 0, now).0
                && Memory() - {pid} == old(Memory()) && CodeLoaded(Memory(), pid, code)
    {
      hide Scheduler.Valid, Scheduler.State, VirtualMemory.Valid, Placed, Inv, Pages, Identified, TableOf,
           SameBlocks, SameSlots, SlotSize, CodeLoaded, Join, VirtualMemory.HasRoom;
      if image.None? {
        return Failure(InvalidArgument);
      }
      var pcb, code := image.value.pcb, image.value.code;
      var pid := pcb.id;
      if pid == INVALID_PID {
        return Failure(InvalidPid);
      }
      if pid in processes {
        return Failure(AlreadyExists);
      }
      Keys(processes, scheduler.processes, virtualMemory.slots);
      InStepWith(processes, scheduler.processes, virtualMemory.slots, image.value, pid);
      PolicyApart(virtualMemory.mmu.policy, pcb, scheduler);
      r := LoadImage(pid, code);
      if r.Failure? {
        return;
      }
      Admit(pcb, now);
      processes := processes[pid := image.value];
    }

    /** A new process can always join lane 0. */
    method Admit(pcb: Pcb, now: Tick)
      requires scheduler.Valid() && virtualMemory.Valid()
      requires pcb.id !in scheduler.processes && pcb.state == New && pcb.id != INVALID_PID
      modifies scheduler, pcb
      ensures virtualMemory.Valid() && Memory() == old(Memory())
      ensures scheduler.Valid() && scheduler.processes == old(scheduler.processes)[pcb.id := pcb]
      ensures scheduler.State() ==
              SchedulerOps.Enqueue(old(scheduler.State()), pcb.id, old(pcb.Value()), 0, now).0
    {
      hide Scheduler.Valid, Scheduler.State, VirtualMemory.Valid, Pages, Placed, Identified, TableOf, Join;
      QueuesInOrder(scheduler);
      PolicyApart(virtualMemory.mmu.policy, pcb, scheduler);
      SchedulerOps.EnqueueKeepsPlacedIff(scheduler.State(), pcb.id, pcb.Value(), 0, now);
      PlacedLanes(scheduler.State());
      LanesOf(scheduler);
      var enqueued := scheduler.EnqueueToLane(pcb, 0, now);
      if enqueued.Failure? {
        assert false;
      }
      ValidWhenPlaced(scheduler);
      MemoryUntouched(virtualMemory);
    }

    method AdvanceClock(ticks: nat)
      requires Valid()
      modifies this`clock
      ensures Valid() && scheduler.State() == old(scheduler.State()) && Memory() == old(Memory())
      ensures clock == Later(old(clock), ticks)
    {
      hide Scheduler.Valid, Scheduler.State, VirtualMemory.Valid, Placed, Inv, Pages, Identified, TableOf,
           SameBlocks, SameSlots;
      for i := 0 to ticks
        invariant clock == Later(old(clock), i)
      {
        OneTickLater(old(clock), i);
        clock := Plus(clock, 1);
      }
      QueuesUntouched(scheduler);
      MemoryUntouched(virtualMemory);
    }

    /** Gives back the slot of a process; its slot is always there. */
    method ReleaseMemory(pid: nat)
      requires scheduler.Valid() && virtualMemory.Valid() && pid in virtualMemory.slots
      modifies virtualMemory, virtualMemory.mmu
      ensures scheduler.Valid() && scheduler.State() == old(scheduler.State())
      ensures virtualMemory.Valid() && virtualMemory.slots == old(virtualMemory.slots) - {pid}
      ensures Memory() == old(Memory()) - {pid}
    {
      hide Scheduler.Valid, Scheduler.State, VirtualMemory.Valid, Inv, Pages;
      var freed := virtualMemory.FreeSlot(pid);
      if freed.Failure? {
        assert false;
      }
      QueuesUntouched(scheduler);
    }

    /** Blocking the process that was just stopped succeeds. */
    method BlockStopped(pid: nat)
      requires scheduler.Valid() && virtualMemory.Valid()
      requires pid in scheduler.State().table && scheduler.State().table[pid].state == Running
      modifies scheduler, scheduler.processes.Values
      ensures scheduler.Valid() && scheduler.State() == SchedulerOps.BlockProcess(old(scheduler.State()), pid, clock).0
      ensures scheduler.processes == old(scheduler.processes)
      ensures virtualMemory.Valid() && Memory() == old(Memory())
    {
      hide Scheduler.Valid, Scheduler.State, VirtualMemory.Valid, Placed, Inv, Pages, Identified, TableOf;
      QueuesInOrder(scheduler);
      PolicyApartAll(virtualMemory.mmu.policy, scheduler);
      BlockedAfterwards(scheduler.State(), pid, clock);
      var parked := scheduler.BlockProcess(pid, clock);
      if parked.Failure? {
        assert false;
      }
      MemoryUntouched(virtualMemory);
    }

    /** Ending the process that was just stopped succeeds. */
    method EndStopped(pid: nat)
      requires scheduler.Valid() && virtualMemory.Valid()
      requires pid in scheduler.State().table && scheduler.State().table[pid].state == Running
      modifies scheduler, scheduler.processes.Values
      ensures scheduler.Valid() && scheduler.State() == Drop(old(scheduler.State()), pid)
      ensures pid in old(scheduler.processes) && scheduler.processes == old(scheduler.processes) - {pid}
      ensures old(scheduler.processes)[pid].Value() == Ended(old(scheduler.State()).table[pid], clock)
      ensures virtualMemory.Valid() && Memory() == old(Memory())
    {
      hide Scheduler.Valid, Scheduler.State, VirtualMemory.Valid, Placed, Inv, Pages, Identified, TableOf, Drop, Ended;
      StateTable(scheduler);
      QueuesInOrder(scheduler);
      PolicyApartAll(virtualMemory.mmu.policy, scheduler);
      DropKeepsPlaced(scheduler.State(), pid);
      var terminated := scheduler.Terminate(pid, clock);
      if terminated.Failure? {
        assert false;
      }
      ValidWhenPlaced(scheduler);
      MemoryUntouched(virtualMemory);
    }

    /** The scheduler's choice on lane 0. */
    method SelectNext() returns (r: Result<nat>)
      requires scheduler.Valid() && virtualMemory.Valid()
      modifies scheduler, scheduler.processes.Values
      ensures scheduler.Valid() && (scheduler.State(), r) ==
              SchedulerOps.Choose(old(scheduler.State()), 0, scheduler.timeSlice, clock)
      ensures scheduler.processes == old(scheduler.processes)
      ensures virtualMemory.Valid() && Memory() == old(Memory())
    {
      hide Scheduler.Valid, Scheduler.State, VirtualMemory.Valid, Placed, Inv, Pages, Identified, TableOf,
           SchedulerOps.Choose;
      PolicyApartAll(virtualMemory.mmu.policy, scheduler);
      r := scheduler.SelectNextForLane(0, clock);
      MemoryUntouched(virtualMemory);
    }

    /** What happens to a process that the engine has stopped; neither blocking nor ending it can fail. */
    method Conclude(pid: nat, reason: StopReason) returns (r: Result<()>)
      requires Valid() && pid in scheduler.State().table && scheduler.State().table[pid].state == Running
      modifies this`processes, scheduler, scheduler.processes.Values, virtualMemory, virtualMemory.mmu
      ensures Valid() && r.Success?
      ensures scheduler.State() == Concluded(old(scheduler.State()), pid, reason, clock)
      ensures if reason !in {BudgetExhausted, Interrupted} then
                processes == old(processes) - {pid} && Memory() == old(Memory()) - {pid}
              else processes == old(processes) && Memory() == old(Memory())
      ensures reason !in {BudgetExhausted, Interrupted} ==>
                && pid in old(processes)
                && old(processes)[pid].pcb.Value() == Ended(old(scheduler.State()).table[pid], clock)
    {
      hide Scheduler.Valid, Scheduler.State, VirtualMemory.Valid, Placed, Inv, Pages, Identified, TableOf,
           SameBlocks, SameSlots, Drop;
      match reason {
        case BudgetExhausted =>
        case Interrupted => BlockStopped(pid);
        case _ => Retire(pid);
      }
      return Success(());
    }

    method Forget(pid: nat)
      requires scheduler.Valid() && virtualMemory.Valid()
      modifies this`processes
      ensures processes == old(processes) - {pid}
      ensures scheduler.Valid() && scheduler.State() == old(scheduler.State())
      ensures virtualMemory.Valid() && Memory() == old(Memory())
    {
      hide Scheduler.Valid, Scheduler.State, VirtualMemory.Valid, Placed, Inv, Pages, Identified, TableOf;
      DispatcherApart(virtualMemory.mmu.policy, this);
      processes := processes - {pid};
      QueuesUntouched(scheduler);
      MemoryUntouched(virtualMemory);
    }

    /** A process that has ended is gone from the scheduler, the memory and the dispatcher. */
    method Retire(pid: nat)
      requires Valid() && pid in scheduler.State().table && scheduler.State().table[pid].state == Running
      modifies this`processes, scheduler, scheduler.processes.Values, virtualMemory, virtualMemory.mmu
      ensures Valid() && scheduler.State() == Drop(old(scheduler.State()), pid)
      ensures processes == old(processes) - {pid} && Memory() == old(Memory()) - {pid}
      ensures pid in old(processes) && old(processes)[pid].pcb.Value() == Ended(old(scheduler.State()).table[pid], clock)
    {
      hide Scheduler.Valid, Scheduler.State, VirtualMemory.Valid, Placed, Inv, Pages, Identified, TableOf,
           SameBlocks, SameSlots, Drop, Ended;
      QueuesInOrder(scheduler);
      Keys(processes, scheduler.processes, virtualMemory.slots);
      InStepWithout(processes, scheduler.processes, virtualMemory.slots, pid);
      var pcb := processes[pid].pcb;
      BlockOf(processes, scheduler.processes, pid);
      EndStopped(pid);
      ReleaseMemory(pid);
      Forget(pid);
    }

    /**
     Lets the chosen process run; the engine stops it for some reason after some ticks. Once a
     process is chosen nothing fails: a stopped process can be blocked, a finished one ended.
     */
    method Dispatch(reason: StopReason, ticks: nat) returns (r: Result<()>)
      requires Valid()
      modifies this, scheduler, scheduler.processes.Values, virtualMemory, virtualMemory.mmu
      ensures Valid()
      ensures var s, chosen := old(scheduler.State()), Chosen(old(scheduler.State()), scheduler.timeSlice, old(clock));
              && (r.Success? <==> HasWork(s, 0)) && (chosen.Success? <==> HasWork(s, 0))
              && (r.Failure? ==> r.error == NotFound)
              && scheduler.State() == Dispatched(s, scheduler.timeSlice, old(clock), reason, Later(old(clock), ticks))
              && clock == (if r.Success? then Later(old(clock), ticks) else old(clock))
              && (if r.Success? && reason !in {BudgetExhausted, Interrupted} then
                    processes == old(processes) - {chosen.value} && Memory() == old(Memory()) - {chosen.value}
                  else processes == old(processes) && Memory() == old(Memory()))
      ensures r.Success? && reason !in {BudgetExhausted, Interrupted} ==>
                var s, slice, now := old(scheduler.State()), scheduler.timeSlice, old(clock);
                && Chosen(s, slice, now).value in old(processes)
                && old(processes)[Chosen(s, slice, now).value].pcb.Value() == Ended(ChosenBlock(s, slice, now), clock)
    {
      hide Scheduler.Valid, Scheduler.State, VirtualMemory.Valid, Placed, Inv, Pages, Identified, TableOf,
           SameBlocks, SameSlots, SchedulerOps.Choose, Concluded, Later, Ended, HasWork;
      QueuesInOrder(scheduler);
      ChosenRuns(scheduler.State(), scheduler.timeSlice, clock);
      Keys(processes, scheduler.processes, virtualMemory.slots);
      if processes == map[] {
        NothingToChoose(scheduler.State(), scheduler.timeSlice, clock);
        return Failure(NotFound);
      }
      SchedulerOps.ChooseKeepsPlaced(scheduler.State(), 0, scheduler.timeSlice, clock);
      PlacedLanes(scheduler.State());
      var selected := SelectNext();
      if selected.Failure? {
        return Failure(selected.error);
      }
      if selected.value !in processes {
        assert false;
      }
      AdvanceClock(ticks);
      r := Conclude(selected.value, reason);
    }

    /** Ends a process in whatever state it is; everything it had is given back. */
    method TerminateProcess(pid: nat, now: Tick) returns (r: Result<()>)
      requires Valid()
      modifies this`processes, scheduler, scheduler.processes.Values, virtualMemory, virtualMemory.mmu
      ensures Valid()
      ensures pid !in old(processes) ==>
                && r == Failure(NotFound)
                && processes == old(processes) && Memory() == old(Memory()) && scheduler.State() == old(scheduler.State())
      ensures pid in old(processes) ==>
                && r.Success?
                && processes == old(processes) - {pid} && Memory() == old(Memory()) - {pid}
                && scheduler.State() == Drop(old(scheduler.State()), pid)
                && old(processes)[pid].pcb.Value() == Ended(old(processes[pid].pcb.Value()), now)
    {
      hide Scheduler.Valid, Scheduler.State, VirtualMemory.Valid, Placed, Inv, Pages, Identified, TableOf,
           SameBlocks, SameSlots, Drop, Ended;
      if pid !in processes {
        return Failure(NotFound);
      }
      Withdraw(pid, now);
      return Success(());
    }

    /** A known process leaves the scheduler, the memory and the dispatcher. */
    method Withdraw(pid: nat, now: Tick)
      requires Valid() && pid in processes
      modifies this`processes, scheduler, scheduler.processes.Values, virtualMemory, virtualMemory.mmu
      ensures Valid() && scheduler.State() == Drop(old(scheduler.State()), pid)
      ensures processes == old(processes) - {pid} && Memory() == old(Memory()) - {pid}
      ensures old(processes)[pid].pcb.Value() == Ended(old(processes[pid].pcb.Value()), now)
    {
      hide Scheduler.Valid, Scheduler.State, VirtualMemory.Valid, Placed, Inv, Pages, Identified, TableOf,
           SameBlocks, SameSlots, Drop, Ended;
      QueuesInOrder(scheduler);
      Keys(processes, scheduler.processes, virtualMemory.slots);
      InStepWithout(processes, scheduler.processes, virtualMemory.slots, pid);
      var pcb := processes[pid].pcb;
      BlockOf(processes, scheduler.processes, pid);
      IdOf(scheduler.processes, pid);
      Detach(pcb, now);
      ReleaseMemory(pid);
      Forget(pid);
    }

    /** Takes a process from the scheduler; its control block records the end if its state allows. */
    method Detach(pcb: Pcb, now: Tick)
      requires scheduler.Valid() && pcb.id in scheduler.processes && scheduler.processes[pcb.id] == pcb
      requires virtualMemory.Valid()
      modifies scheduler, pcb
      ensures virtualMemory.Valid() && Memory() == old(Memory())
      ensures scheduler.Valid() && scheduler.processes == old(scheduler.processes) - {pcb.id}
      ensures scheduler.State() == Drop(old(scheduler.State()), pcb.id)
      ensures pcb.Value() == Ended(old(pcb.Value()), now)
    {
      hide Scheduler.Valid, Scheduler.State, VirtualMemory.Valid, Pages, Placed, Identified, TableOf, Drop;
      QueuesInOrder(scheduler);
      PolicyApart(virtualMemory.mmu.policy, pcb, scheduler);
      var removed := scheduler.Dequeue(pcb.id);
      if removed.Failure? {
        assert false;
      }
      MarkEnded(pcb, now);
      MemoryUntouched(virtualMemory);
    }

    /** The end is noted in a control block that the scheduler no longer knows. */
    method MarkEnded(pcb: Pcb, now: Tick)
      requires scheduler.Valid() && pcb.id !in scheduler.processes
      modifies pcb
      ensures scheduler.Valid() && scheduler.State() == old(scheduler.State())
      ensures pcb.Value() == Ended(old(pcb.Value()), now)
    {
      hide Scheduler.Valid, Scheduler.State, Placed, Identified, TableOf;
      QueuesInOrder(scheduler);
      IdsIn(scheduler.processes, pcb.id);
      var ended := pcb.SetState(Terminated, now);
      QueuesUntouched(scheduler);
    }

    method Tick()
      requires Valid()
      modifies this`clock
      ensures Valid() && clock == Later(old(clock), 1)
    {
      hide Scheduler.Valid, Scheduler.State, VirtualMemory.Valid, Placed, Inv, Pages, Identified, TableOf,
           SameBlocks, SameSlots;
      clock := Plus(clock, 1);
      QueuesUntouched(scheduler);
      MemoryUntouched(virtualMemory);
    }
  }
}
