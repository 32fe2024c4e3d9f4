/** Address translation, frame allocation, eviction and swapping. */
module MemoryManagement {
  import opened Core
  import opened PageReplacement
  import opened PagingState
  import opened AllocationRoom
  import opened ReplacementHistory

  /** The frame of a virtual page, or why there is none. */
  function Translate(tables: map<nat, seq<Entry>>, pid: nat, vp: nat): (r: Result<nat>)
    ensures r.Success? <==> Resident(tables, Page(pid, vp))
    ensures r.Success? ==> r.value == tables[pid][vp].frame
    ensures r.Failure? ==>
              r.error == if pid !in tables then InvalidPid
                         else if HasPage(tables, Page(pid, vp)) then SegmentationFault
                         else InvalidAddress
  {
    if pid !in tables then Failure(InvalidPid)
    else if vp >= |tables[pid]| then Failure(InvalidAddress)
    else if !tables[pid][vp].present then Failure(SegmentationFault)
    else Success(tables[pid][vp].frame)
  }

  method AllFrames(n: nat) returns (frames: set<nat>)
    ensures forall f: nat :: f in frames <==> f < n
  {
    frames := {};
    for i := 0 to n
      invariant forall f: nat :: f in frames <==> f < i
    {
      frames := frames + {i};
    }
  }

  class Mmu {
    const policy: Policy
    var memory: seq<Block>
    var pageTables: map<nat, seq<Entry>>
    var freeFrames: set<nat>
    var frameOwners: map<nat, nat>
    var swapSpace: map<Page, Block>
    /** For each owned frame the page in it. */
    ghost var holder: map<nat, Page>
    /** What the policy has been told and has answered. */
    ghost var uses: Uses

    ghost function State(): Paging
      reads this
    {
      Paging(memory, pageTables, freeFrames, frameOwners, swapSpace, holder)
    }

    /** The policy is in the state that the history of uses calls for. */
    ghost predicate Listens()
      reads this`uses, policy.Repr()
    {
      && policy.Valid()
      && (this as object) !in policy.Repr()
      && Heard(policy.Fifo?, policy.Lru?, policy.Queue(), uses)
    }

    /** The policy knows every owned frame and only frames that exist, though some may be stale. */
    ghost predicate Tracks()
      reads this`frameOwners, this`memory, this`uses, policy.Repr()
    {
      && Listens()
      && frameOwners.Keys <= policy.Tracked()
      && forall f | f in policy.Tracked() :: f < |memory|
    }

    ghost predicate Valid()
      reads this, policy.Repr()
    {
      && Tracks()
      && Inv(State(), None)
      && (pageTables != map[] ==> |memory| > 0)
    }

    /** Room for `n` more pages, as far as the order of victims is fixed: under Clock only free frames are sure. */
    ghost predicate Admits(n: nat)
      reads this, policy.Repr()
    {
      || n <= |freeFrames|
      || (policy.Lru? && n <= |memory|)
      || (policy.Fifo? && FifoRoom(policy.Queue(), freeFrames, n))
    }

    /** All memory is free and blank; the policy has seen no frame yet. */
    constructor (cells: nat, policy: Policy)
      requires policy.Valid() && policy.Tracked() == {}
      ensures Valid() && this.policy == policy
      ensures |memory| == cells && pageTables == map[]
    {
      var frames := AllFrames(cells);
      this.policy := policy;
      memory := seq(cells, _ => NOP);
      pageTables, frameOwners, swapSpace, holder, uses := map[], map[], map[], map[], [];
      freeFrames := frames;
      new;
      NothingTracked(policy);
      NothingHeard(policy.Fifo?, policy.Lru?);
    }

    /** The policy hears of an access to an owned frame. */
    method NoteAccess(frame: nat)
      requires Tracks() && frame in frameOwners && frame < |memory|
      modifies this`uses, policy.Repr()
      ensures Tracks() && State() == old(State()) && uses == old(uses) + [Accessed(frame)]
      ensures policy.Clock? ==>
                policy.Queue() == old(policy.Queue()) && policy.Hand() == old(policy.Hand()) &&
                policy.Bits() == old(policy.Bits()) + {frame}
    {
      hide Heard, Reloaded, Without;
      HearAccess(policy.Fifo?, policy.Lru?, policy.Queue(), uses, frame);
      policy.OnAccess(frame);
      uses := uses + [Accessed(frame)];
    }

    /** The policy hears that a frame is loaded. */
    method NoteLoad(frame: nat)
      requires Listens()
      modifies this`uses, policy.Repr()
      ensures Listens() && State() == old(State()) && uses == old(uses) + [Loaded(frame)]
      ensures policy.Tracked() == old(policy.Tracked()) + {frame}
      ensures !policy.Clock? ==> policy.Queue() == Reloaded(policy.Lru?, old(policy.Queue()), frame)
    {
      hide Heard, Reloaded, Without;
      HearLoad(policy.Fifo?, policy.Lru?, policy.Queue(), uses, frame);
      policy.OnLoad(frame);
      if policy.Clock? {
        HearNothing(policy.Queue(), uses + [Loaded(frame)]);
      }
      uses := uses + [Loaded(frame)];
    }

    /** The policy names a victim. */
    method PickVictim() returns (victim: Option<nat>)
      requires Listens()
      modifies this`uses, policy.Repr()
      ensures Listens() && State() == old(State())
      ensures uses == if victim.Some? then old(uses) + [Evicted(victim.value)] else old(uses)
      ensures victim.None? <==> old(policy.Tracked()) == {}
      ensures victim.None? ==> policy.Tracked() == {}
      ensures victim.Some? ==>
                && victim.value in old(policy.Tracked())
                && old(policy.Tracked()) - {victim.value} <= policy.Tracked() <= old(policy.Tracked())
      ensures !policy.Clock? && victim.Some? ==> old(policy.Queue()) == [victim.value] + policy.Queue()
      ensures !policy.Clock? && victim.None? ==> old(policy.Queue()) == []
    {
      hide Heard;
      ghost var queue := policy.Queue();
      victim := policy.SelectVictim();
      if victim.Some? {
        if !policy.Clock? {
          HearEviction(policy.Fifo?, policy.Lru?, queue, uses, policy.Queue(), victim.value);
        } else {
          HearNothing(policy.Queue(), uses + [Evicted(victim.value)]);
        }
        uses := uses + [Evicted(victim.value)];
      }
    }

    /** The content of a resident page; paging never shows. */
    method Read(pid: nat, vp: nat) returns (r: Result<Block>)
      requires Valid()
      modifies this`pageTables, this`uses, policy.Repr()
      ensures Valid() && NotesAccess(old(pageTables), old(uses), uses, pid, vp)
      ensures r.Success? <==> Resident(old(pageTables), Page(pid, vp))
      ensures policy.Clock? && r.Success? ==> old(pageTables)[pid][vp].frame in policy.Bits()
      ensures r.Success? ==> r.value == Pages(old(State()))[pid][vp]
      ensures r.Failure? ==> r.error == Translate(old(pageTables), pid, vp).error
      ensures Pages(State()) == Pages(old(State()))
      ensures SameResidency(old(pageTables), pageTables)
      ensures pageTables == if r.Success? then Marked(old(pageTables), Page(pid, vp), false) else old(pageTables)
    {
      hide Inv, Pages, SameResidency, Access, Translate, HasPage, Mmu.Tracks, Heard;
      NoChange(State());
      var translated := Translate(pageTables, pid, vp);
      if translated.Failure? {
        return Failure(translated.error);
      }
      var frame := translated.value;
      ResidentFrame(State(), Page(pid, vp));
      NoteAccess(frame);
      var e := pageTables[pid][vp].(referenced := true);
      AccessSeen(State(), Page(pid, vp), e, memory[frame]);
      ReadBack(State(), Page(pid, vp));
      assert memory[frame := memory[frame]] == memory;
      pageTables := pageTables[pid := pageTables[pid][vp := e]];
      return Success(memory[frame]);
    }

    method Store(frame: nat, block: Block)
      requires Tracks() && frame < |memory|
      modifies this`memory
      ensures Tracks() && memory == old(memory)[frame := block]
    {
      hide Heard;
      memory := memory[frame := block];
    }

    /** Changes exactly one page, and only a resident one. */
    method Write(pid: nat, vp: nat, block: Block) returns (r: Result<()>)
      requires Valid()
      modifies this`pageTables, this`memory, this`uses, policy.Repr()
      ensures Valid() && |memory| == |old(memory)| && NotesAccess(old(pageTables), old(uses), uses, pid, vp)
      ensures r.Success? <==> Resident(old(pageTables), Page(pid, vp))
      ensures policy.Clock? && r.Success? ==> old(pageTables)[pid][vp].frame in policy.Bits()
      ensures r.Failure? ==>
                && r.error == Translate(old(pageTables), pid, vp).error
                && Pages(State()) == Pages(old(State()))
      ensures r.Success? ==> Pages(State()) == Pages(old(State()))[pid := Pages(old(State()))[pid][vp := block]]
      ensures SameResidency(old(pageTables), pageTables)
      ensures pageTables == if r.Success? then Marked(old(pageTables), Page(pid, vp), true) else old(pageTables)
    {
      hide Inv, Pages, SameResidency, Access, Translate, HasPage, Mmu.Tracks, Heard;
      NoChange(State());
      var translated := Translate(pageTables, pid, vp);
      if translated.Failure? {
        return Failure(translated.error);
      }
      var frame := translated.value;
      ResidentFrame(State(), Page(pid, vp));
      NoteAccess(frame);
      var e := pageTables[pid][vp].(referenced := true, dirty := true);
      AccessSeen(State(), Page(pid, vp), e, block);
      pageTables := pageTables[pid := pageTables[pid][vp := e]];
      Store(frame, block);
      return Success(());
    }

    /** Takes some free frame for `pid`; which one is left open. */
    method AllocateFrame(pid: nat) returns (frame: Option<nat>)
      modifies this`freeFrames, this`frameOwners
      ensures frame.None? <==> old(freeFrames) == {}
      ensures frame.None? ==> unchanged(this)
      ensures frame.Some? ==>
                && frame.value in old(freeFrames)
                && freeFrames == old(freeFrames) - {frame.value}
                && frameOwners == old(frameOwners)[frame.value := pid]
    {
      if freeFrames == {} {
        return None;
      }
      var f :| f in freeFrames;
      freeFrames := freeFrames - {f};
      frameOwners := frameOwners[f := pid];
      return Some(f);
    }

    /** Finds the page in an owned frame and moves it to swap. */
    method SaveVictim(frame: nat, ghost pend: Option<Page>)
      requires Inv(State(), pend) && frame in frameOwners
      modifies this`pageTables, this`swapSpace, this`holder
      ensures frame in old(holder) && HasPage(old(pageTables), old(holder)[frame]) && frame < |memory|
      ensures pageTables == Evict(old(State()), frame).tables
      ensures swapSpace == Evict(old(State()), frame).swap
      ensures holder == Evict(old(State()), frame).holder
    {
      hide Inv;
      FrameHolder(State(), pend, frame);
      var owner := frameOwners[frame];
      var table := pageTables[owner];
      ghost var p := holder[frame];
      var vp := 0;
      while vp < |table|
        invariant vp <= p.vp
        invariant unchanged(this)
      {
        if table[vp].present && table[vp].frame == frame {
          OnlyPage(State(), pend, Page(owner, vp), frame);
          swapSpace := swapSpace[Page(owner, vp) := memory[frame]];
          pageTables := pageTables[owner := table[vp := UNMAPPED]];
          holder := holder - {frame};
          return;
        }
        vp := vp + 1;
      }
    }

    /** The frames of the first `count` pages of `pid` become free. */
    method FreeFrames(pid: nat, count: nat)
      requires pid in pageTables && count <= |pageTables[pid]|
      modifies this`freeFrames, this`frameOwners
      ensures freeFrames == old(freeFrames) + FramesBelow(pageTables[pid], count)
      ensures frameOwners == old(frameOwners) - FramesBelow(pageTables[pid], count)
    {
      var table := pageTables[pid];
      for page := 0 to count
        invariant freeFrames == old(freeFrames) + FramesBelow(table, page)
        invariant frameOwners == old(frameOwners) - FramesBelow(table, page)
      {
        FramesBelowNext(table, page);
        if table[page].present {
          frameOwners := frameOwners - {table[page].frame};
          freeFrames := freeFrames + {table[page].frame};
        }
      }
    }

    /** Everything the process had is free again; no other process notices. */
    method Deallocate(pid: nat) returns (r: Result<()>)
      requires Valid()
      modifies this
      ensures Valid() && memory == old(memory)
      ensures r.Success? <==> pid in old(pageTables)
      ensures r.Failure? ==> r.error == InvalidPid && unchanged(this)
      ensures State() == Release(old(State()), pid)
      ensures Pages(State()) == Pages(old(State())) - {pid}
      ensures pid !in frameOwners.Values
      ensures uses == old(uses)
      ensures pageTables == old(pageTables) - {pid}
    {
      hide Inv, Pages, Release, FramesBelow, SwapWithout, Heard;
      ReleaseSparesOthers(State(), pid);
      ReleaseKeepsInv(State(), None, pid);
      OwnsNothing(State(), pid);
      if pid !in pageTables {
        NothingToRelease(State(), pid);
        return Failure(InvalidPid);
      }
      OwnFrames(State(), None, pid, |pageTables[pid]|);
      holder := holder - FramesBelow(pageTables[pid], |pageTables[pid]|);
      FreeFrames(pid, |pageTables[pid]|);
      swapSpace := SwapWithout(swapSpace, pid);
      pageTables := pageTables - {pid};
      return Success(());
    }

    /** The page goes to swap and its frame is free; no content changes. */
    method SwapOut(pid: nat, vp: nat) returns (r: Result<()>)
      requires Valid()
      modifies this
      ensures Valid() && memory == old(memory)
      ensures r.Success? <==> HasPage(old(pageTables), Page(pid, vp))
      ensures r.Failure? ==> r.error == (if pid !in old(pageTables) then InvalidPid else InvalidAddress)
      ensures Pages(State()) == Pages(old(State()))
      ensures forall q: Page :: HasPage(pageTables, q) == HasPage(old(pageTables), q)
      ensures forall q: Page :: Resident(pageTables, q) == (Resident(old(pageTables), q) && q != Page(pid, vp))
      ensures uses == old(uses)
      ensures pageTables == if Resident(old(pageTables), Page(pid, vp)) then SetEntry(old(pageTables), Page(pid, vp), UNMAPPED)
                            else old(pageTables)
    {
      hide Inv, Pages, Evict, Heard;
      if pid !in pageTables {
        return Failure(InvalidPid);
      }
      if vp >= |pageTables[pid]| {
        return Failure(InvalidAddress);
      }
      if !pageTables[pid][vp].present {
        return Success(());
      }
      var frame := pageTables[pid][vp].frame;
      OnlyPage(State(), None, Page(pid, vp), frame);
      EvictSeen(State(), None, frame);
      swapSpace := swapSpace[Page(pid, vp) := memory[frame]];
      pageTables := pageTables[pid := pageTables[pid][vp := UNMAPPED]];
      frameOwners := frameOwners - {frame};
      freeFrames := freeFrames + {frame};
      holder := holder - {frame};
      return Success(());
    }

    /** The fields are those of `s` except that `frame`, free in `s`, is already reserved for `pid`. */
    ghost predicate Reserved(s: Paging, frame: nat, pid: nat)
      reads this
    {
      && frame in s.free
      && memory == s.memory && pageTables == s.tables && swapSpace == s.swap && holder == s.holder
      && freeFrames == s.free - {frame}
      && frameOwners == s.owners[frame := pid]
    }

    /** Saves the victim's page and reserves its frame, as if the frame had been free. */
    method EvictFor(victim: nat, pid: nat, ghost pend: Option<Page>) returns (ghost s: Paging)
      requires Inv(State(), pend) && victim in frameOwners && freeFrames == {}
      modifies this`pageTables, this`swapSpace, this`holder, this`frameOwners
      ensures victim in old(holder) && HasPage(old(pageTables), old(holder)[victim]) && victim < |memory|
      ensures s == Evict(old(State()), victim)
      ensures Inv(s, pend) && Pages(s) == Pages(old(State()))
      ensures Reserved(s, victim, pid) && frameOwners == old(frameOwners)[victim := pid]
    {
      hide Inv, Pages, Heard;
      EvictSeen(State(), pend, victim);
      s := Evict(State(), victim);
      SaveVictim(victim, pend);
      frameOwners := frameOwners[victim := pid];
    }

    /** A free frame, or else one taken from the victim of the policy; there always is one. */
    method ObtainFrame(pid: nat, ghost p: Page) returns (frame: nat, ghost s: Paging, ghost gone: Page)
      requires Valid() && pageTables != map[]
      modifies this, policy.Repr()
      ensures Listens() && frameOwners.Keys <= policy.Tracked() + {frame}
      ensures forall f | f in policy.Tracked() :: f < |memory|
      ensures Inv(s, None) && Pages(s) == Pages(old(State())) && Reserved(s, frame, pid)
      ensures |memory| == |old(memory)|
      ensures forall q: Page :: HasPage(pageTables, q) == HasPage(old(pageTables), q)
      ensures forall q: Page | q != gone :: Resident(pageTables, q) == Resident(old(pageTables), q)
      ensures forall q: Page :: Resident(pageTables, q) ==> Resident(old(pageTables), q)
      ensures old(freeFrames) != {} ==> gone == p && pageTables == old(pageTables)
      ensures LeftFor(old(pageTables), pageTables, old(uses), uses)
      ensures uses == if old(freeFrames) != {} then old(uses) else old(uses) + [Evicted(frame)]
    {
      hide LeftFor, Inv, Pages, Evict, Heard;
      s, gone := State(), p;
      NoneLeave(pageTables, uses, uses);
      var free := AllocateFrame(pid);
      if free.Some? {
        return free.value, s, gone;
      }
      frame, s, gone := EvictAny(pid, p);
    }

    /** With nothing free: a frame taken from the victim of the policy, whosever it is. */
    method EvictAny(pid: nat, ghost p: Page) returns (frame: nat, ghost s: Paging, ghost gone: Page)
      requires Valid() && pageTables != map[] && freeFrames == {}
      modifies this, policy.Repr()
      ensures Listens() && frameOwners.Keys <= policy.Tracked() + {frame}
      ensures forall f | f in policy.Tracked() :: f < |memory|
      ensures Inv(s, None) && Pages(s) == Pages(old(State())) && Reserved(s, frame, pid)
      ensures |memory| == |old(memory)|
      ensures forall q: Page :: HasPage(pageTables, q) == HasPage(old(pageTables), q)
      ensures forall q: Page :: Resident(pageTables, q) == (Resident(old(pageTables), q) && q != gone)
      ensures LeftFor(old(pageTables), pageTables, old(uses), uses) && uses == old(uses) + [Evicted(frame)]
    {
      hide LeftFor, Inv, Pages, Evict, Heard, Mmu.Listens, HasPage, Resident;
      s, gone := State(), p;
      AllFramesOwned(s, None);
      var victim := PickVictim();
      if victim.None? {
        assert false;
      }
      frame := victim.value;
      EvictSeen(s, None, frame);
      EvictLeaves(s, None, frame, old(uses));
      gone := holder[frame];
      s := EvictFor(frame, pid, None);
    }

    /** Copies the page from swap into its reserved frame and maps it. */
    method PlaceFromSwap(p: Page, frame: nat, ghost s: Paging)
      requires Listens()
      requires frameOwners.Keys <= policy.Tracked() + {frame}
      requires forall f | f in policy.Tracked() :: f < |memory|
      requires Reserved(s, frame, p.pid) && frame < |memory| && p in swapSpace && HasPage(pageTables, p)
      requires Inv(Load(s, p, frame, swapSpace[p]), None)
      modifies this, policy.Repr()
      ensures Tracks() && State() == Load(s, p, frame, s.swap[p])
      ensures HasPage(pageTables, p) && pageTables[p.pid][p.vp].frame == frame && uses == old(uses) + [Loaded(frame)]
    {
      hide Inv, Pages, Heard;
      NoteLoad(frame);
      Store(frame, swapSpace[p]);
      swapSpace := swapSpace - {p};
      pageTables := pageTables[p.pid := pageTables[p.pid][p.vp := Entry(frame, true, false, true)]];
      holder := holder[frame := p];
    }

    /** Brings a page back; it always finds a frame and no content changes. */
    method SwapIn(pid: nat, vp: nat) returns (r: Result<()>)
      requires Valid()
      modifies this, policy.Repr()
      ensures Valid() && |memory| == |old(memory)|
      ensures r.Success? <==> HasPage(old(pageTables), Page(pid, vp))
      ensures r.Failure? ==> r.error == (if pid !in old(pageTables) then InvalidPid else InvalidAddress)
      ensures Pages(State()) == Pages(old(State()))
      ensures r.Failure? ==> pageTables == old(pageTables)
      ensures r.Success? ==> exists gone: Page :: Moved(old(pageTables), pageTables, gone, Page(pid, vp))
      ensures r.Success? && old(freeFrames) != {} ==>
                Moved(old(pageTables), pageTables, Page(pid, vp), Page(pid, vp))
      ensures LeftFor(old(pageTables), pageTables, old(uses), uses)
      ensures r.Failure? || old(pageTables)[pid][vp].present ==> uses == old(uses)
      ensures r.Success? && !old(pageTables)[pid][vp].present ==>
                && HasPage(pageTables, Page(pid, vp))
                && var f := pageTables[pid][vp].frame;
                   uses == if old(freeFrames) != {} then old(uses) + [Loaded(f)] else old(uses) + [Evicted(f), Loaded(f)]
    {
      hide LeftFor, Inv, Pages, Load, Evict, Moved, Heard;
      NoneLeave(pageTables, uses, uses);
      if pid !in pageTables {
        return Failure(InvalidPid);
      }
      if vp >= |pageTables[pid]| {
        return Failure(InvalidAddress);
      }
      var p := Page(pid, vp);
      if pageTables[pid][vp].present {
        NothingMoved(pageTables, p);
        return Success(());
      }
      var frame, s, gone := ObtainFrame(pid, p);
      InSwap(s, p);
      SwapInSeen(old(State()), s, p, frame, gone);
      LoadLeaves(s, p, frame, s.swap[p], uses);
      LeavesTwice(old(pageTables), s.tables, Load(s, p, frame, s.swap[p]).tables, old(uses), uses, uses + [Loaded(frame)]);
      PlaceFromSwap(p, frame, s);
      return Success(());
    }
  
    /** The policy's victim, unless it belongs to the process that is being set up. */
    method ChooseVictim(pid: nat) returns (victim: Option<nat>)
      requires Tracks() && forall f: nat | f < |memory| :: f in frameOwners
      modifies this`uses, policy.Repr()
      ensures Listens() && NoAccess(old(uses), uses) && forall f | f in policy.Tracked() :: f < |memory|
      ensures victim.None? ==> frameOwners.Keys <= policy.Tracked()
      ensures victim.Some? ==>
                && victim.value in frameOwners && frameOwners[victim.value] != pid
                && frameOwners.Keys <= policy.Tracked() + {victim.value}
                && (!policy.Clock? ==> old(policy.Queue()) == [victim.value] + policy.Queue())
      ensures victim.None? && !policy.Clock? && old(policy.Queue()) != [] ==>
                old(policy.Queue())[0] in frameOwners && frameOwners[old(policy.Queue())[0]] == pid
      ensures victim.Some? ==> uses == old(uses) + [Evicted(victim.value)]
    {
      victim := PickVictim();
      if victim.Some? && frameOwners[victim.value] == pid {
        NoteLoad(victim.value);
        victim := None;
      }
    }

    /** Finds a frame for the next page: a free one, or one evicted from another process. */
    method ReserveFor(pid: nat, ghost pend: Option<Page>) returns (frame: Option<nat>, ghost s: Paging)
      requires Tracks() && Inv(State(), pend)
      modifies this, policy.Repr()
      ensures Listens() && LeftFor(old(pageTables), pageTables, old(uses), uses)
      ensures memory == old(memory) && forall f | f in policy.Tracked() :: f < |memory|
      ensures frame.None? ==> State() == old(State()) && frameOwners.Keys <= policy.Tracked()
      ensures frame.Some? ==>
                && frameOwners.Keys <= policy.Tracked() + {frame.value}
                && Inv(s, pend) && Pages(s) == Pages(old(State())) && Reserved(s, frame.value, pid)
                && OthersMayLeave(old(pageTables), pageTables, pid)
                && (pid in old(pageTables) ==> pid in pageTables && pageTables[pid] == old(pageTables)[pid])
      ensures old(freeFrames) != {} ==> frame.Some? && s == old(State())
      ensures frame.Some? ==>
                Got(!policy.Clock?, old(freeFrames), old(frameOwners), old(policy.Queue()),
                    freeFrames, frameOwners, policy.Queue(), pid, frame.value)
      ensures frame.None? ==>
                Stuck(!policy.Clock?, old(freeFrames), old(frameOwners), old(policy.Queue()), pid)
    {
      hide LeftFor, Inv, Pages, Evict, OthersMayLeave, Stuck, Heard;
      s := State();
      FreeIsUnowned(s, pend);
      NoneLeft(pageTables, pid);
      NoneLeave(pageTables, uses, uses);
      frame := AllocateFrame(pid);
      if frame.Some? {
        return;
      }
      frame, s := EvictOne(pid, pend);
    }

    /** With nothing free: a frame evicted from another process. */
    method EvictOne(pid: nat, ghost pend: Option<Page>) returns (frame: Option<nat>, ghost s: Paging)
      requires Tracks() && Inv(State(), pend) && freeFrames == {}
      modifies this, policy.Repr()
      ensures Listens() && LeftFor(old(pageTables), pageTables, old(uses), uses)
      ensures memory == old(memory) && forall f | f in policy.Tracked() :: f < |memory|
      ensures frame.None? ==>
                && State() == old(State()) && frameOwners.Keys <= policy.Tracked()
                && Stuck(!policy.Clock?, old(freeFrames), old(frameOwners), old(policy.Queue()), pid)
      ensures frame.Some? ==>
                && frameOwners.Keys <= policy.Tracked() + {frame.value}
                && Inv(s, pend) && Pages(s) == Pages(old(State())) && Reserved(s, frame.value, pid)
                && OthersMayLeave(old(pageTables), pageTables, pid)
                && (pid in old(pageTables) ==> pid in pageTables && pageTables[pid] == old(pageTables)[pid])
                && Got(!policy.Clock?, old(freeFrames), old(frameOwners), old(policy.Queue()),
                       freeFrames, frameOwners, policy.Queue(), pid, frame.value)
    {
      hide LeftFor, Inv, Pages, Evict, OthersMayLeave, Heard, Mmu.Listens;
      s := State();
      AllFramesOwned(s, pend);
      frame := ChooseVictim(pid);
      if frame.None? {
        NoneLeave(s.tables, old(uses), uses);
        return;
      }
      OthersEvicted(s, pend, frame.value, pid);
      EvictLeaves(s, pend, frame.value, old(uses));
      s := EvictFor(frame.value, pid, pend);
    }

    /** Maps a page that was never loaded to its reserved frame. */
    method PlaceFresh(p: Page, frame: nat, ghost s: Paging)
      requires Listens()
      requires frameOwners.Keys <= policy.Tracked() + {frame}
      requires forall f | f in policy.Tracked() :: f < |memory|
      requires Reserved(s, frame, p.pid) && frame < |memory| && p !in swapSpace && HasPage(pageTables, p)
      modifies this, policy.Repr()
      ensures Tracks() && State() == Load(s, p, frame, s.memory[frame])
      ensures freeFrames == old(freeFrames) && frameOwners == old(frameOwners)
      ensures !policy.Clock? ==> policy.Queue() == Reloaded(policy.Lru?, old(policy.Queue()), frame)
      ensures uses == old(uses) + [Loaded(frame)]
    {
      hide Heard, Reloaded, Inv;
      NoteLoad(frame);
      assert memory == memory[frame := memory[frame]] && swapSpace == swapSpace - {p};
      pageTables := pageTables[p.pid := pageTables[p.pid][p.vp := Entry(frame, true, false, true)]];
      holder := holder[frame := p];
    }

    /** One round of the allocation loop. */
    method AllocatePage(pid: nat, page: nat) returns (ok: bool, ghost got: nat)
      requires Tracks() && pid in pageTables && page < |pageTables[pid]| && Inv(State(), Some(Page(pid, page)))
      modifies this, policy.Repr()
      ensures LeftFor(old(pageTables), pageTables, old(uses), uses)
      ensures Tracks() && |memory| == |old(memory)|
      ensures !ok ==> State() == old(State())
      ensures ok ==>
                && |memory| > 0
                && pid in pageTables && |pageTables[pid]| == |old(pageTables)[pid]|
                && Inv(State(), Some(Page(pid, page + 1)))
                && Pages(State()) - {pid} == Pages(old(State())) - {pid}
                && OthersMayLeave(old(pageTables), pageTables, pid)
                && (forall vp | 0 <= vp < |pageTables[pid]| ::
                      pageTables[pid][vp].present == (old(pageTables)[pid][vp].present || vp == page))
      ensures old(freeFrames) != {} ==>
                && ok && |freeFrames| == |old(freeFrames)| - 1
                && pageTables - {pid} == old(pageTables) - {pid}
      ensures ok ==>
                Took(!policy.Clock?, policy.Lru?, old(freeFrames), old(frameOwners), old(policy.Queue()),
                     freeFrames, frameOwners, policy.Queue(), pid, got)
      ensures !ok ==> Stuck(!policy.Clock?, old(freeFrames), old(frameOwners), old(policy.Queue()), pid)
    {
      hide LeftFor, Inv, Pages, OthersMayLeave, Load, Got, Took, Stuck, Heard;
      got := 0;
      var frame, s := ReserveFor(pid, Some(Page(pid, page)));
      if frame.None? {
        return false, got;
      }
      got := frame.value;
      MapSeen(old(State()), s, pid, page, frame.value);
      ghost var queue := policy.Queue();
      PendingIsAbsent(s, pid, page);
      LoadLeaves(s, Page(pid, page), frame.value, s.memory[frame.value], uses);
      LeavesTwice(old(pageTables), s.tables, Load(s, Page(pid, page), frame.value, s.memory[frame.value]).tables,
                  old(uses), uses, uses + [Loaded(frame.value)]);
      PlaceFresh(Page(pid, page), frame.value, s);
      GotThenLoaded(!policy.Clock?, policy.Lru?, old(freeFrames), old(frameOwners), old(policy.Queue()),
                    freeFrames, frameOwners, queue, policy.Queue(), pid, got);
      return true, got;
    }
  
    /** Takes back what an allocation that failed at page `page` had got. */
    method RollBack(pid: nat, page: nat)
      requires Tracks() && pid in pageTables && page <= |pageTables[pid]| && Inv(State(), Some(Page(pid, page)))
      requires forall vp | 0 <= vp < |pageTables[pid]| :: pageTables[pid][vp].present <==> vp < page
      modifies this
      ensures Tracks() && memory == old(memory)
      ensures State() == Release(old(State()), pid)
      ensures uses == old(uses)
    {
      hide Inv, Release, FramesBelow, Heard;
      OwnFrames(State(), Some(Page(pid, page)), pid, page);
      NothingInSwap(State(), pid, page);
      holder := holder - FramesBelow(pageTables[pid], page);
      FreeFrames(pid, page);
      pageTables := pageTables - {pid};
    }

    /** One round, and what it means for the room there is. */
    method NextPage(pid: nat, page: nat, ghost course: Course) returns (ok: bool, ghost course': Course)
      requires Tracks() && pid in pageTables && page < |pageTables[pid]| && Inv(State(), Some(Page(pid, page)))
      requires |course.own| == page
      requires OnCourse(policy.Fifo?, policy.Lru?, course, freeFrames, frameOwners, policy.Queue(), pid)
      modifies this, policy.Repr()
      ensures LeftFor(old(pageTables), pageTables, old(uses), uses)
      ensures Tracks() && |memory| == |old(memory)|
      ensures !ok ==> State() == old(State()) && OutOfRoom(policy.Fifo?, policy.Lru?, course, |memory|, |pageTables[pid]|)
      ensures ok ==>
                && |memory| > 0 && PageAdded(old(State()), State(), pid, page)
                && Inv(State(), Some(Page(pid, page + 1)))
                && OnCourse(policy.Fifo?, policy.Lru?, course', freeFrames, frameOwners, policy.Queue(), pid)
                && |course'.own| == page + 1 && course'.free0 == course.free0 && course'.queue0 == course.queue0
      ensures old(freeFrames) != {} ==>
                && ok && |freeFrames| == |old(freeFrames)| - 1
                && pageTables - {pid} == old(pageTables) - {pid}
    {
      hide LeftFor, Inv, Pages, OthersMayLeave, OnCourse, Took, Stuck, OutOfRoom, Advanced, Heard;
      ghost var free, owners, queue := freeFrames, frameOwners, policy.Queue();
      QueueOf(policy);
      assert forall f | f in owners :: f in queue;
      ghost var got;
      ok, got := AllocatePage(pid, page);
      course' := course;
      if ok {
        CourseAdvances(policy.Fifo?, policy.Lru?, course, free, owners, queue,
                       freeFrames, frameOwners, policy.Queue(), pid, got);
        course' := Advanced(course, free != {}, got);
      } else {
        NoRoom(State(), Some(Page(pid, page)), policy.Fifo?, policy.Lru?, course, queue, pid, |pageTables[pid]|);
      }
    }

    /** Maps the pages of a new table one after the other, until done or stuck. */
    method FillTable(pid: nat, pageCount: nat) returns (page: nat)
      requires Tracks() && pid in pageTables && |pageTables[pid]| == pageCount && Inv(State(), Some(Page(pid, 0)))
      requires forall vp | 0 <= vp < pageCount :: !pageTables[pid][vp].present
      modifies this, policy.Repr()
      ensures LeftFor(old(pageTables), pageTables, old(uses), uses)
      ensures page <= pageCount && Tracks() && |memory| == |old(memory)| && (page > 0 ==> |memory| > 0)
      ensures Inv(State(), Some(Page(pid, page))) && PagesAdded(old(State()), State(), pid, page)
      ensures page <= |old(freeFrames)| ==> pageTables - {pid} == old(pageTables) - {pid}
      ensures pageCount <= |old(freeFrames)| ==> page == pageCount
      ensures policy.Fifo? && pageCount <= |old(freeFrames)| ==>
                TookFree(old(freeFrames), old(policy.Queue()), freeFrames, policy.Queue(), pageCount)
      ensures page == pageCount && policy.Fifo? ==> FifoRoom(old(policy.Queue()), old(freeFrames), pageCount)
      ensures page < pageCount && policy.Fifo? ==> !FifoRoom(old(policy.Queue()), old(freeFrames), pageCount)
      ensures page < pageCount && policy.Lru? ==> |memory| < pageCount
    {
      hide LeftFor, Inv, Pages, OnCourse, FifoRoom, TookFree, PageAdded, PagesAdded, Heard;
      ghost var course := Started(freeFrames, policy.Queue());
      NothingPresent(State(), pid);
      QueueOf(policy);
      CourseStarts(policy.Fifo?, policy.Lru?, freeFrames, frameOwners, policy.Queue(), pid);
      NoPageAdded(State(), pid);
      NoneLeave(pageTables, uses, uses);
      page := 0;
      while page < pageCount
        invariant page <= pageCount && Tracks() && |memory| == |old(memory)| && (page > 0 ==> |memory| > 0)
        invariant LeftFor(old(pageTables), pageTables, old(uses), uses)
        invariant Inv(State(), Some(Page(pid, page))) && PagesAdded(old(State()), State(), pid, page)
        invariant page <= |old(freeFrames)| ==>
                    |freeFrames| == |old(freeFrames)| - page && pageTables - {pid} == old(pageTables) - {pid}
        invariant OnCourse(policy.Fifo?, policy.Lru?, course, freeFrames, frameOwners, policy.Queue(), pid)
        invariant |course.own| == page && course.free0 == old(freeFrames) && course.queue0 == old(policy.Queue())
      {
        TableOfCourse(old(State()), State(), pid, page);
        ghost var before, heard := State(), uses;
        var ok;
        ghost var next;
        ok, next := NextPage(pid, page, course);
        LeavesTwice(old(pageTables), before.tables, pageTables, old(uses), heard, uses);
        if !ok {
          return;
        }
        course := next;
        OnePageMore(old(State()), before, State(), pid, page);
        page := page + 1;
      }
      CourseEnds(policy.Fifo?, policy.Lru?, course, freeFrames, frameOwners, policy.Queue(), pid);
      if policy.Fifo? && page <= |old(freeFrames)| {
        CourseOfFree(policy.Lru?, course, freeFrames, frameOwners, policy.Queue(), pid);
      }
    }

    /**
     All pages resident, or nothing at all: a failed allocation leaves no frame behind, and in
     both cases the content of every other process's pages is untouched. Under LRU it fails
     exactly when there are fewer frames than pages, under FIFO exactly when `FifoRoom` says.
     */
    method Allocate(pid: nat, pageCount: nat) returns (r: Result<nat>)
      requires Valid()
      modifies this, policy.Repr()
      ensures LeftFor(old(pageTables), pageTables, old(uses), uses)
      ensures Valid() && |memory| == |old(memory)|
      ensures r.Failure? ==> Pages(State()) == Pages(old(State()))
      ensures r.Failure? ==> r.error == (if pageCount == 0 then InvalidAddress
                                         else if pid in old(pageTables) then InvalidPid
                                         else OutOfMemory)
      ensures pageCount == 0 || pid in old(pageTables) ==> r.Failure? && State() == old(State())
      ensures r == Failure(OutOfMemory) ==> pid !in frameOwners.Values
      ensures r.Success? ==>
                && r.value == 0 && pageCount <= |memory|
                && pid in pageTables && |pageTables[pid]| == pageCount
                && (forall vp | 0 <= vp < pageCount :: pageTables[pid][vp].present)
                && Pages(State()) - {pid} == Pages(old(State()))
      ensures forall q: Page | q.pid != pid :: Resident(pageTables, q) ==> Resident(old(pageTables), q)
      ensures 0 < pageCount <= |old(freeFrames)| && pid !in old(pageTables) ==>
                r.Success? && pageTables - {pid} == old(pageTables)
      ensures r.Success? && policy.Fifo? && pageCount <= |old(freeFrames)| ==>
                TookFree(old(freeFrames), old(policy.Queue()), freeFrames, policy.Queue(), pageCount)
      ensures pageCount > 0 && pid !in old(pageTables) && old(Admits(pageCount)) ==> r.Success?
      ensures r.Success? && !policy.Clock? ==> old(Admits(pageCount))
    {
      hide LeftFor, Inv, Pages, Release, NewTable, Resident, HasPage, FifoRoom, TookFree, PagesAdded, Heard;
      NoneLeave(pageTables, uses, uses);
      if pageCount == 0 {
        return Failure(InvalidAddress);
      }
      if pid in pageTables {
        return Failure(InvalidPid);
      }
      NewTableSeen(State(), pid, pageCount);
      pageTables := pageTables[pid := seq(pageCount, _ => UNMAPPED)];
      ghost var mapped := State();
      var page := FillTable(pid, pageCount);
      AddedToNewTable(old(State()), mapped, State(), pid, pageCount, page);
      NewTableLeaves(old(pageTables), mapped.tables, pageTables, pid, pageCount, old(uses), uses);
      if page < pageCount {
        RollBackSeen(State(), pid, page);
        RollBack(pid, page);
        return Failure(OutOfMemory);
      }
      AllMapped(State(), pid, pageCount);
      PagesFitInMemory(State(), pid);
      return Success(0);
    }
  }

  /** The page table entry notes the access. */
  ghost function Marked(tables: map<nat, seq<Entry>>, p: Page, write: bool): map<nat, seq<Entry>>
    requires HasPage(tables, p)
  {
    var e := tables[p.pid][p.vp];
    SetEntry(tables, p, e.(referenced := true, dirty := e.dirty || write))
  }

  /** A successful access is passed on with the page's frame; a failed one is not. */
  ghost predicate NotesAccess(tables: map<nat, seq<Entry>>, uses: Uses, uses': Uses, pid: nat, vp: nat) {
    uses' == if Resident(tables, Page(pid, vp)) then uses + [Accessed(tables[pid][vp].frame)] else uses
  }

  /** The policy has been told of loads and asked for victims, but not told of accesses. */
  ghost predicate NoAccess(uses: Uses, uses': Uses) {
    uses <= uses' && forall k | |uses| <= k < |uses'| :: !uses'[k].Accessed?
  }

  /** A page that was resident still is, in the same frame, or its frame was named as a victim meanwhile. */
  ghost predicate StaysOrEvicted(tables: map<nat, seq<Entry>>, tables': map<nat, seq<Entry>>, asked: Uses, q: Page)
    requires Resident(tables, q)
  {
    || (Resident(tables', q) && tables'[q.pid][q.vp].frame == tables[q.pid][q.vp].frame)
    || Evicted(tables[q.pid][q.vp].frame) in asked
  }

  /** Pages have left memory only because the policy named their frames. */
  ghost predicate LeftFor(tables: map<nat, seq<Entry>>, tables': map<nat, seq<Entry>>, uses: Uses, uses': Uses) {
    NoAccess(uses, uses') && forall q: Page | Resident(tables, q) :: StaysOrEvicted(tables, tables', uses'[|uses|..], q)
  }

  lemma NoneLeave(tables: map<nat, seq<Entry>>, uses: Uses, uses': Uses)
    requires NoAccess(uses, uses')
    ensures LeftFor(tables, tables, uses, uses')
  {
  }

  lemma LeavesTwice(a: map<nat, seq<Entry>>, b: map<nat, seq<Entry>>, c: map<nat, seq<Entry>>, u: Uses, v: Uses, w: Uses)
    requires LeftFor(a, b, u, v) && LeftFor(b, c, v, w)
    ensures LeftFor(a, c, u, w)
  {
    NoAccessTwice(u, v, w);
    assert w[|u|..] == v[|u|..] + w[|v|..];
    forall q: Page | Resident(a, q)
      ensures StaysOrEvicted(a, c, w[|u|..], q)
    {
      assert StaysOrEvicted(a, b, v[|u|..], q);
    }
  }

  lemma EvictLeaves(s: Paging, pend: Option<Page>, f: nat, uses: Uses)
    requires Inv(s, pend) && f in s.owners
    ensures f in s.holder && HasPage(s.tables, s.holder[f]) && f < |s.memory|
    ensures LeftFor(s.tables, Evict(s, f).tables, uses, uses + [Evicted(f)])
  {
    FrameHolder(s, pend, f);
    var t := Evict(s, f);
    assert (uses + [Evicted(f)])[|uses|..] == [Evicted(f)];
    forall q: Page | Resident(s.tables, q)
      ensures StaysOrEvicted(s.tables, t.tables, [Evicted(f)], q)
    {
    }
  }

  lemma PendingIsAbsent(s: Paging, pid: nat, page: nat)
    requires Inv(s, Some(Page(pid, page)))
    ensures !Resident(s.tables, Page(pid, page))
  {
    assert HasPage(s.tables, Page(pid, page)) ==> Pending(Some(Page(pid, page)), Page(pid, page));
  }

  lemma LoadLeaves(s: Paging, p: Page, f: nat, b: Block, uses: Uses)
    requires HasPage(s.tables, p) && !Resident(s.tables, p) && f < |s.memory|
    ensures LeftFor(s.tables, Load(s, p, f, b).tables, uses, uses + [Loaded(f)])
  {
  }

  /** A new table takes no frame from anyone, whether it stays or not. */
  lemma NewTableLeaves(a: map<nat, seq<Entry>>, b: map<nat, seq<Entry>>, c: map<nat, seq<Entry>>, pid: nat, n: nat,
                       u: Uses, v: Uses)
    requires pid !in a && b == a[pid := seq(n, _ => UNMAPPED)] && LeftFor(b, c, u, v)
    ensures LeftFor(a, c, u, v) && LeftFor(a, c - {pid}, u, v)
  {
    forall q: Page | Resident(a, q)
      ensures StaysOrEvicted(a, c, v[|u|..], q) && StaysOrEvicted(a, c - {pid}, v[|u|..], q)
    {
      assert StaysOrEvicted(b, c, v[|u|..], q);
    }
  }

  lemma NoAccessTwice(a: Uses, b: Uses, c: Uses)
    requires NoAccess(a, b) && NoAccess(b, c)
    ensures NoAccess(a, c)
  {
  }

  lemma HearNothing(queue: seq<nat>, h: Uses)
    ensures Heard(false, false, queue, h)
  {
  }

  /** Page `page` of `pid` has become present; other processes may have lost frames but no content. */
  ghost predicate PageAdded(s: Paging, t: Paging, pid: nat, page: nat)
    requires pid in s.tables
  {
    && pid in t.tables && |t.tables[pid]| == |s.tables[pid]|
    && Pages(t) - {pid} == Pages(s) - {pid}
    && OthersMayLeave(s.tables, t.tables, pid)
    && (forall vp | 0 <= vp < |t.tables[pid]| :: t.tables[pid][vp].present == (s.tables[pid][vp].present || vp == page))
  }

  /** So far the first `page` pages. */
  ghost predicate PagesAdded(s: Paging, t: Paging, pid: nat, page: nat)
    requires pid in s.tables
  {
    && pid in t.tables && |t.tables[pid]| == |s.tables[pid]|
    && Pages(t) - {pid} == Pages(s) - {pid}
    && OthersMayLeave(s.tables, t.tables, pid)
    && (forall vp | 0 <= vp < |t.tables[pid]| :: t.tables[pid][vp].present <==> vp < page)
  }


  lemma EvictSeen(s: Paging, pend: Option<Page>, f: nat)
    requires Inv(s, pend) && f in s.owners
    ensures f in s.holder && HasPage(s.tables, s.holder[f]) && f < |s.memory|
    ensures var p := s.holder[f];
            Evict(s, f) == Paging(s.memory, s.tables[p.pid := s.tables[p.pid][p.vp := UNMAPPED]], s.free + {f},
                                  s.owners - {f}, s.swap[p := s.memory[f]], s.holder - {f})
    ensures Inv(Evict(s, f), pend) && Pages(Evict(s, f)) == Pages(s)
    ensures forall q: Page :: HasPage(Evict(s, f).tables, q) == HasPage(s.tables, q)
    ensures forall q: Page :: Resident(Evict(s, f).tables, q) == (Resident(s.tables, q) && q != s.holder[f])
  {
    FrameHolder(s, pend, f);
    EvictKeepsInv(s, pend, f);
    EvictIsUnseen(s, pend, f);
    EvictResidency(s, f);
  }

  lemma NothingMoved(tables: map<nat, seq<Entry>>, p: Page)
    requires Resident(tables, p)
    ensures Moved(tables, tables, p, p)
  {
  }

  lemma AllFramesOwned(s: Paging, pend: Option<Page>)
    requires Inv(s, pend) && s.free == {}
    ensures forall f: nat | f < |s.memory| :: f in s.owners
    ensures |s.memory| > 0 ==> 0 in s.owners
  {
  }

  lemma InSwap(s: Paging, p: Page)
    requires Inv(s, None) && HasPage(s.tables, p) && !Resident(s.tables, p)
    ensures p in s.swap
  {
  }

  /** From `s0` over `s`, in which at most `gone` was evicted, to `p` in frame `f`. */
  lemma SwapInSeen(s0: Paging, s: Paging, p: Page, f: nat, gone: Page)
    requires Inv(s, None) && p in s.swap && f in s.free && Pages(s) == Pages(s0)
    requires forall q: Page :: HasPage(s.tables, q) == HasPage(s0.tables, q)
    requires forall q: Page | q != gone :: Resident(s.tables, q) == Resident(s0.tables, q)
    ensures f < |s.memory| && HasPage(s.tables, p)
    ensures var t := Load(s, p, f, s.swap[p]);
            && |t.memory| == |s.memory| && t.tables != map[] && Inv(t, None)
            && Pages(t) == Pages(s0) && Moved(s0.tables, t.tables, gone, p)
  {
    var t := Load(s, p, f, s.swap[p]);
    LoadKeepsInv(s, None, p, f, s.swap[p], None);
    LoadIsUnseen(s, None, p, f);
    LoadResidency(s, p, f, s.swap[p]);
  }

  lemma NothingTracked(policy: Policy)
    requires policy.Tracked() == {}
    ensures policy.Queue() == []
  {
    SomeMember(policy.Queue());
    assert forall f | f in policy.Queue() :: f in policy.Tracked();
  }

  lemma QueueOf(policy: Policy)
    requires policy.Valid()
    ensures forall f :: f in policy.Tracked() <==> f in policy.Queue()
    ensures policy.Lru? ==> Distinct(policy.Queue())
  {
  }

  lemma FreeIsUnowned(s: Paging, pend: Option<Page>)
    requires Inv(s, pend)
    ensures forall f | f in s.free :: f !in s.owners
  {
  }

  /** A table without present pages owns no frames. */
  lemma NothingPresent(s: Paging, pid: nat)
    requires pid in s.tables && Inv(s, Some(Page(pid, 0)))
    requires forall vp | 0 <= vp < |s.tables[pid]| :: !s.tables[pid][vp].present
    ensures forall f | f in s.owners :: s.owners[f] != pid
  {
    forall f | f in s.owners
      ensures s.owners[f] != pid
    {
      assert f in s.holder && Holds(s, f, s.holder[f]);
    }
  }

  /** An allocation that is stuck had no room from the start. */
  lemma NoRoom(s: Paging, pend: Option<Page>, fifo: bool, lru: bool, course: Course, queue: seq<nat>, pid: nat, n: nat)
    requires Inv(s, pend) && (forall f | f in s.owners :: f in queue) && |course.own| < n
    requires OnCourse(fifo, lru, course, s.free, s.owners, queue, pid) && Stuck(fifo || lru, s.free, s.owners, queue, pid)
    ensures OutOfRoom(fifo, lru, course, |s.memory|, n)
  {
    hide OnCourse, OutOfRoom;
    AllFramesOwned(s, pend);
    CourseIsStuck(fifo, lru, course, s.free, s.owners, queue, pid, n, |s.memory|);
  }

  lemma NoPageAdded(s: Paging, pid: nat)
    requires pid in s.tables && forall vp | 0 <= vp < |s.tables[pid]| :: !s.tables[pid][vp].present
    ensures PagesAdded(s, s, pid, 0)
  {
    hide Pages;
    NoneLeft(s.tables, pid);
  }

  lemma OnePageMore(s: Paging, t: Paging, u: Paging, pid: nat, page: nat)
    requires pid in s.tables && PagesAdded(s, t, pid, page) && PageAdded(t, u, pid, page)
    ensures PagesAdded(s, u, pid, page + 1)
  {
    hide Pages, Resident;
  }

  lemma TableOfCourse(s: Paging, t: Paging, pid: nat, page: nat)
    requires pid in s.tables && PagesAdded(s, t, pid, page)
    ensures pid in t.tables && |t.tables[pid]| == |s.tables[pid]|
  {
  }

  /** Seen from before the table was made. */
  lemma AddedToNewTable(s0: Paging, s: Paging, t: Paging, pid: nat, n: nat, page: nat)
    requires pid in s.tables && |s.tables[pid]| == n && PagesAdded(s, t, pid, page)
    requires Pages(s) - {pid} == Pages(s0)
    requires forall q: Page | q.pid != pid :: Resident(s.tables, q) ==> Resident(s0.tables, q)
    ensures pid in t.tables && |t.tables[pid]| == n && t.tables.Keys == s.tables.Keys
    ensures Pages(t) - {pid} == Pages(s0)
    ensures forall q: Page | q.pid != pid :: Resident(t.tables, q) ==> Resident(s0.tables, q)
    ensures forall vp | 0 <= vp < n :: t.tables[pid][vp].present <==> vp < page
  {
    hide Pages, Resident;
  }

  lemma OwnsNothing(s: Paging, pid: nat)
    ensures pid !in Release(s, pid).owners.Values
  {
  }

  lemma NothingToRelease(s: Paging, pid: nat)
    requires Inv(s, None) && pid !in s.tables
    ensures Release(s, pid) == s
  {
    NothingOwned(s, pid);
    NothingSwapped(s, pid);
    hide Inv, SwapWithout;
    assert (set f | f in s.owners && s.owners[f] == pid) == {};
    assert s.owners - {} == s.owners && s.holder - {} == s.holder && s.tables - {pid} == s.tables;
  }

  lemma NothingOwned(s: Paging, pid: nat)
    requires Inv(s, None) && pid !in s.tables
    ensures forall f | f in s.owners :: s.owners[f] != pid
  {
    forall f | f in s.owners
      ensures s.owners[f] != pid
    {
      assert Holds(s, f, s.holder[f]);
    }
  }

  lemma NothingSwapped(s: Paging, pid: nat)
    requires Inv(s, None) && pid !in s.tables
    ensures SwapWithout(s.swap, pid) == s.swap
  {
  }

  lemma OwnFrames(s: Paging, pend: Option<Page>, pid: nat, n: nat)
    requires Inv(s, pend) && pid in s.tables && n <= |s.tables[pid]|
    requires forall vp | n <= vp < |s.tables[pid]| :: !s.tables[pid][vp].present
    ensures var frames := FramesBelow(s.tables[pid], n);
            Release(s, pid) == Paging(s.memory, s.tables - {pid}, s.free + frames, s.owners - frames,
                                      SwapWithout(s.swap, pid), s.holder - frames)
  {
    FramesOfProcess(s, pid, n);
  }

  lemma NoChange(s: Paging)
    ensures SameResidency(s.tables, s.tables)
  {
  }

  lemma ResidentFrame(s: Paging, p: Page)
    requires Inv(s, None) && Resident(s.tables, p)
    ensures p.pid in s.tables && p.vp < |s.tables[p.pid]|
    ensures s.tables[p.pid][p.vp].frame < |s.memory| && s.tables[p.pid][p.vp].frame in s.owners
  {
  }

  lemma AccessSeen(s: Paging, p: Page, e: Entry, b: Block)
    requires Inv(s, None) && Resident(s.tables, p) && s.tables[p.pid][p.vp].frame < |s.memory|
    requires e.present && e.frame == s.tables[p.pid][p.vp].frame
    ensures p.pid in Pages(s) && p.vp < |Pages(s)[p.pid]|
    ensures var t := s.(memory := s.memory[e.frame := b], tables := s.tables[p.pid := s.tables[p.pid][p.vp := e]]);
            && Inv(t, None)
            && SameResidency(s.tables, t.tables)
            && Pages(t) == Pages(s)[p.pid := Pages(s)[p.pid][p.vp := b]]
  {
    AccessKeepsInv(s, p, e, b);
    AccessIsLocal(s, p, e, b);
  }

  /** Writing back what is there changes nothing. */
  lemma ReadBack(s: Paging, p: Page)
    requires Inv(s, None) && Resident(s.tables, p) && s.tables[p.pid][p.vp].frame < |s.memory|
    ensures p.pid in Pages(s) && p.vp < |Pages(s)[p.pid]|
    ensures Pages(s)[p.pid][p.vp] == s.memory[s.tables[p.pid][p.vp].frame]
    ensures Pages(s)[p.pid := Pages(s)[p.pid][p.vp := s.memory[s.tables[p.pid][p.vp].frame]]] == Pages(s)
  {
    var b := s.memory[s.tables[p.pid][p.vp].frame];
    assert Content(s, p) == b;
    assert Page(p.pid, p.vp) == p;
    assert Pages(s)[p.pid][p.vp := b] == Pages(s)[p.pid];
  }

  lemma FrameHolder(s: Paging, pend: Option<Page>, f: nat)
    requires Inv(s, pend) && f in s.owners
    ensures f in s.holder && Holds(s, f, s.holder[f]) && f < |s.memory|
  {
  }

  lemma OnlyPage(s: Paging, pend: Option<Page>, p: Page, f: nat)
    requires Inv(s, pend) && Resident(s.tables, p) && s.tables[p.pid][p.vp].frame == f
    ensures f in s.holder && s.holder[f] == p && f in s.owners
  {
  }

  // ---------------------------------------------------------------- allocation

  /** Only pages of other processes may have left memory. */
  ghost predicate OthersMayLeave(tables: map<nat, seq<Entry>>, tables': map<nat, seq<Entry>>, pid: nat) {
    && tables'.Keys == tables.Keys
    && (forall p | p in tables :: |tables'[p]| == |tables[p]|)
    && (forall q: Page | q.pid != pid :: Resident(tables', q) ==> Resident(tables, q))
  }

  lemma NoneLeft(tables: map<nat, seq<Entry>>, pid: nat)
    ensures OthersMayLeave(tables, tables, pid)
  {
  }

  lemma OthersEvicted(s: Paging, pend: Option<Page>, f: nat, pid: nat)
    requires Inv(s, pend) && f in s.owners && s.owners[f] != pid
    ensures f in s.holder && HasPage(s.tables, s.holder[f]) && f < |s.memory|
    ensures OthersMayLeave(s.tables, Evict(s, f).tables, pid)
    ensures pid in s.tables ==> Evict(s, f).tables[pid] == s.tables[pid]
  {
    FrameHolder(s, pend, f);
    EvictResidency(s, f);
  }

  /** From `s0` over `s`, in which others may have lost a page, to page `page` in frame `f`. */
  lemma MapSeen(s0: Paging, s: Paging, pid: nat, page: nat, f: nat)
    requires pid in s.tables && page < |s.tables[pid]| && Inv(s, Some(Page(pid, page))) && f in s.free
    requires Pages(s) == Pages(s0) && OthersMayLeave(s0.tables, s.tables, pid)
    ensures f < |s.memory|
    ensures var p := Page(pid, page);
            var t := Load(s, p, f, s.memory[f]);
            && p !in s.swap && |t.memory| == |s.memory| && t.free == s.free - {f}
            && t.tables == s.tables[pid := s.tables[pid][page := Entry(f, true, false, true)]]
            && Inv(t, Some(Page(pid, page + 1)))
            && Pages(t) - {pid} == Pages(s0) - {pid}
            && OthersMayLeave(s0.tables, t.tables, pid)
  {
    var p := Page(pid, page);
    assert HasPage(s.tables, p) && Pending(Some(Page(pid, page)), p);
    LoadKeepsInv(s, Some(Page(pid, page)), p, f, s.memory[f], Some(Page(pid, page + 1)));
    LoadSparesOthers(s, Some(Page(pid, page)), p, f);
    LoadResidency(s, p, f, s.memory[f]);
  }

  lemma NewTableSeen(s: Paging, pid: nat, n: nat)
    requires Inv(s, None) && pid !in s.tables
    ensures var t := s.(tables := s.tables[pid := seq(n, _ => UNMAPPED)]);
            && Inv(t, Some(Page(pid, 0)))
            && Pages(t) - {pid} == Pages(s)
            && t.tables - {pid} == s.tables
            && forall q: Page | q.pid != pid :: Resident(t.tables, q) ==> Resident(s.tables, q)
  {
    NewTableKeepsInv(s, pid, n);
    NewTableSparesOthers(s, pid, n);
  }

  lemma NothingInSwap(s: Paging, pid: nat, page: nat)
    requires pid in s.tables && Inv(s, Some(Page(pid, page)))
    requires forall vp | 0 <= vp < |s.tables[pid]| :: s.tables[pid][vp].present <==> vp < page
    ensures SwapWithout(s.swap, pid) == s.swap
  {
    forall p | p in s.swap
      ensures p.pid != pid
    {
      assert HasPage(s.tables, p) && !Resident(s.tables, p);
    }
  }

  lemma RollBackSeen(s: Paging, pid: nat, page: nat)
    requires Inv(s, Some(Page(pid, page)))
    ensures Inv(Release(s, pid), None)
    ensures Pages(Release(s, pid)) == Pages(s) - {pid}
    ensures Release(s, pid).tables == s.tables - {pid}
    ensures forall q: Page :: Resident(Release(s, pid).tables, q) ==> Resident(s.tables, q)
    ensures pid !in Release(s, pid).owners.Values
  {
    ReleaseKeepsInv(s, Some(Page(pid, page)), pid);
    ReleaseSparesOthers(s, pid);
    OwnsNothing(s, pid);
  }

  // ---------------------------------------------------------------- no more resident pages than frames

  lemma {:induction false} SizeBelow(frames: set<nat>, n: nat)
    requires forall f | f in frames :: f < n
    ensures |frames| <= n
  {
    if n > 0 {
      SizeBelow(frames - {n - 1}, n - 1);
      if n - 1 in frames {
        assert frames == frames - {n - 1} + {n - 1};
      } else {
        assert frames == frames - {n - 1};
      }
    } else {
      assert frames == {};
    }
  }

  lemma {:induction false} FramesAreDistinct(s: Paging, pid: nat, n: nat)
    requires Inv(s, None) && pid in s.tables && n <= |s.tables[pid]|
    requires forall vp | 0 <= vp < n :: s.tables[pid][vp].present
    ensures |FramesBelow(s.tables[pid], n)| == n
  {
    if n > 0 {
      FramesAreDistinct(s, pid, n - 1);
      FramesBelowNext(s.tables[pid], n - 1);
      assert Resident(s.tables, Page(pid, n - 1));
      forall vp | 0 <= vp < n - 1
        ensures s.tables[pid][vp].frame != s.tables[pid][n - 1].frame
      {
        assert Resident(s.tables, Page(pid, vp));
      }
    }
  }

  lemma PagesFitInMemory(s: Paging, pid: nat)
    requires Inv(s, None) && pid in s.tables
    requires forall vp | 0 <= vp < |s.tables[pid]| :: s.tables[pid][vp].present
    ensures |s.tables[pid]| <= |s.memory|
  {
    var n := |s.tables[pid]|;
    FramesAreDistinct(s, pid, n);
    FramesOfProcess(s, pid, n);
    SizeBelow(FramesBelow(s.tables[pid], n), |s.memory|);
  }
}
