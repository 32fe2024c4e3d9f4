/** Whole runs: any sequence of calls to one dispatcher and its scheduler keeps everything in step. */
module DispatcherRuns {
  import opened Core
  import opened ProcessControl
  import opened SchedulerState
  import opened ProcessScheduler
  import opened PagingState
  import opened MemoryManagement
  import opened VirtualMemorySlots
  import opened ProcessDispatcher
  import opened SchedulerLaws
  import SchedulerOps

  datatype Call =
    | Create(pid: nat, code: seq<Block>)
    | Dispatch(reason: StopReason, ticks: nat)
    | Terminate(pid: nat)
    | Unblock(pid: nat)
    | Steal(lane: nat)
    | Tick

  /** Another client wakes a process. */
  method WakeBeside(d: Dispatcher, pid: nat) returns (r: Result<()>)
    requires d.Valid()
    modifies d.scheduler, d.scheduler.processes.Values
    ensures d.Valid() && d.Memory() == old(d.Memory()) && d.scheduler.processes == old(d.scheduler.processes)
  {
    hide Scheduler.Valid, Scheduler.State, VirtualMemory.Valid, Placed, Inv, Pages, Identified, TableOf,
         SchedulerOps.Unblock, SameBlocks, SameSlots;
    PolicyApartAll(d.virtualMemory.mmu.policy, d.scheduler);
    r := d.scheduler.Unblock(pid, d.clock);
    MemoryUntouched(d.virtualMemory);
  }

  /** Another client lets a lane steal. */
  method StealBeside(d: Dispatcher, lane: nat) returns (r: Result<()>)
    requires d.Valid()
    modifies d.scheduler, d.scheduler.processes.Values
    ensures d.Valid() && d.Memory() == old(d.Memory()) && d.scheduler.processes == old(d.scheduler.processes)
  {
    hide Scheduler.Valid, Scheduler.State, VirtualMemory.Valid, Placed, Inv, Pages, Identified, TableOf,
         SchedulerOps.Steal, SameBlocks, SameSlots;
    PolicyApartAll(d.virtualMemory.mmu.policy, d.scheduler);
    var stolen := d.scheduler.StealNextForLane(lane, d.clock);
    r := if stolen.Success? then Success(()) else Failure(stolen.error);
    MemoryUntouched(d.virtualMemory);
  }

  /** The control blocks are those of the images. */
  lemma FewerBlocks(images: map<nat, Image>, blocks: map<nat, Pcb>, images': map<nat, Image>, blocks': map<nat, Pcb>)
    requires SameBlocks(images, blocks) && SameBlocks(images', blocks')
    requires forall pid | pid in images' :: pid in images && images'[pid] == images[pid]
    ensures blocks'.Values <= blocks.Values
  {
    forall pcb | pcb in blocks'.Values
      ensures pcb in blocks.Values
    {
      var pid :| pid in blocks' && blocks'[pid] == pcb;
      assert images[pid].pcb == pcb && blocks[pid] == pcb;
    }
  }

  lemma OneMoreBlock(images: map<nat, Image>, blocks: map<nat, Pcb>, images': map<nat, Image>, blocks': map<nat, Pcb>,
                     added: Image)
    requires SameBlocks(images, blocks) && SameBlocks(images', blocks')
    requires forall pid | pid in images' :: images'[pid] == added || (pid in images && images'[pid] == images[pid])
    ensures blocks'.Values <= blocks.Values + {added.pcb}
  {
    forall pcb | pcb in blocks'.Values
      ensures pcb in blocks.Values + {added.pcb}
    {
      var pid :| pid in blocks' && blocks'[pid] == pcb;
      assert images'[pid].pcb == pcb;
      assert images'[pid] != added ==> blocks[pid] == pcb;
    }
  }

  /** A new process image, made for this dispatcher. */
  method CreateFresh(d: Dispatcher, pid: nat, code: seq<Block>) returns (r: Result<()>)
    requires d.Valid()
    modifies d, d.scheduler, d.virtualMemory, d.virtualMemory.mmu, d.virtualMemory.mmu.policy.Repr()
    ensures d.Valid()
    ensures forall pcb | pcb in d.scheduler.processes.Values :: pcb in old(d.scheduler.processes.Values) || fresh(pcb)
  {
    hide Scheduler.Valid, Scheduler.State, VirtualMemory.Valid, Placed, Inv, Pages, Identified, TableOf,
         SameBlocks, SameSlots, Dispatcher.Memory;
    ghost var images, blocks := d.processes, d.scheduler.processes;
    var pcb := new Pcb(pid, d.clock);
    var image := Image(pcb, code);
    StillValid(d);
    r := d.CreateProcess(Some(image), d.clock);
    OneMoreBlock(images, blocks, d.processes, d.scheduler.processes, image);
  }

  twostate lemma StillValid(d: Dispatcher)
    requires unchanged(d) && unchanged(d.scheduler) && unchanged(d.virtualMemory) && unchanged(d.virtualMemory.mmu)
    requires forall pcb | pcb in d.scheduler.processes.Values :: unchanged(pcb)
    requires forall o | o in d.virtualMemory.mmu.policy.Repr() :: unchanged(o)
    requires old(d.Valid())
    ensures d.Valid()
  {
    QueuesUntouched(d.scheduler);
    MemoryUntouched(d.virtualMemory);
  }

  /** One call; the control blocks are those known before or new ones. */
  method Perform(d: Dispatcher, call: Call) returns (r: Result<()>)
    requires d.Valid()
    modifies d, d.scheduler, d.scheduler.processes.Values
    modifies d.virtualMemory, d.virtualMemory.mmu, d.virtualMemory.mmu.policy.Repr()
    ensures d.Valid()
    ensures forall pcb | pcb in d.scheduler.processes.Values :: pcb in old(d.scheduler.processes.Values) || fresh(pcb)
    ensures call.Dispatch? ==> (r.Success? <==> HasWork(old(d.scheduler.State()), 0)) && (r.Failure? ==> r.error == NotFound)
  {
    hide Scheduler.Valid, Scheduler.State, VirtualMemory.Valid, Placed, Inv, Pages, Identified, TableOf,
         SameBlocks, SameSlots, Dispatcher.Memory, Chosen, Dispatched, HasWork;
    ghost var images, blocks := d.processes, d.scheduler.processes;
    match call {
      case Create(pid, code) =>
        r := CreateFresh(d, pid, code);
      case Dispatch(reason, ticks) =>
        r := d.Dispatch(reason, ticks);
        FewerBlocks(images, blocks, d.processes, d.scheduler.processes);
      case Terminate(pid) =>
        r := d.TerminateProcess(pid, d.clock);
        FewerBlocks(images, blocks, d.processes, d.scheduler.processes);
      case Tick =>
        d.Tick();
        r := Success(());
      case Unblock(pid) =>
        r := WakeBeside(d, pid);
      case Steal(lane) =>
        r := StealBeside(d, lane);
    }
  }

  /**
   Main result. Whatever is called, and however the engine stops processes: the queues stay in
   order, dispatcher, scheduler, slots and page tables know the same processes, and a dispatch
   fails only when there is nothing to choose.
   */
  method Drive(d: Dispatcher, calls: seq<Call>) returns (answers: seq<Result<()>>)
    requires d.Valid()
    modifies d, d.scheduler, d.scheduler.processes.Values
    modifies d.virtualMemory, d.virtualMemory.mmu, d.virtualMemory.mmu.policy.Repr()
    ensures d.Valid() && |answers| == |calls|
    ensures d.processes.Keys == d.scheduler.processes.Keys == d.virtualMemory.slots.Keys ==
            d.virtualMemory.mmu.pageTables.Keys
    ensures forall i | 0 <= i < |calls| && calls[i].Dispatch? :: answers[i].Success? || answers[i].error == NotFound
  {
    hide Scheduler.Valid, Scheduler.State, Placed, Inv, Pages, Identified, TableOf, Dispatcher.Memory;
    answers := [];
    for i := 0 to |calls|
      invariant d.Valid() && |answers| == i
      invariant forall pcb | pcb in d.scheduler.processes.Values :: pcb in old(d.scheduler.processes.Values) || fresh(pcb)
      invariant forall j | 0 <= j < i && calls[j].Dispatch? :: answers[j].Success? || answers[j].error == NotFound
    {
      var r := Perform(d, calls[i]);
      answers := answers + [r];
    }
  }
}
