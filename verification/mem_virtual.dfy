/** One slot of virtual memory per process, on top of the memory management unit. */
module VirtualMemorySlots {
  import opened Core
  import opened PagingState
  import opened MemoryManagement
  import opened AllocationRoom
  import opened ReplacementHistory

  /** The first of the first `n` entries that is not present, or `n`. */
  function FirstAbsent(table: seq<Entry>, n: nat): (k: nat)
    requires n <= |table|
    ensures k <= n
    ensures k < n ==> !table[k].present
    ensures forall i | 0 <= i < k :: table[i].present
  {
    if n == 0 then 0
    else if FirstAbsent(table, n - 1) < n - 1 then FirstAbsent(table, n - 1)
    else if table[n - 1].present then n else n - 1
  }

  /** A process that is entirely in memory, as after an allocation. */
  ghost predicate AllPresent(table: seq<Entry>) {
    forall i | 0 <= i < |table| :: table[i].present
  }

  /** A slot for each page table, of its size. */
  ghost predicate SlotsMatch(slots: map<nat, nat>, tables: map<nat, seq<Entry>>) {
    slots.Keys == tables.Keys && forall pid | pid in slots :: slots[pid] == |tables[pid]|
  }

  lemma SlotKeys(slots: map<nat, nat>, tables: map<nat, seq<Entry>>)
    requires SlotsMatch(slots, tables)
    ensures slots.Keys == tables.Keys
  {
  }

  lemma SlotsKept(s: Paging, t: Paging, slots: map<nat, nat>)
    requires SlotsMatch(slots, s.tables) && Pages(t) == Pages(s)
    ensures SlotsMatch(slots, t.tables)
  {
    KeysOfPages(s, t);
  }

  lemma SlotAdded(s: Paging, t: Paging, slots: map<nat, nat>, pid: nat, size: nat)
    requires SlotsMatch(slots, s.tables) && pid !in slots && pid in t.tables && |t.tables[pid]| == size
    requires Pages(t) - {pid} == Pages(s)
    ensures SlotsMatch(slots[pid := size], t.tables)
  {
    hide Pages;
    KeysOfPages(s, t);
    forall q | q in t.tables && q != pid
      ensures q in slots && slots[q] == |t.tables[q]|
    {
      assert q in Pages(t) - {pid};
    }
    assert forall q | q in slots :: q in Pages(s) && q in Pages(t);
  }

  class VirtualMemory {
    const mmu: Mmu
    const maxSlots: nat
    var slots: map<nat, nat>

    ghost predicate Valid()
      reads this, mmu, mmu.policy.Repr()
    {
      && mmu.Valid()
      && (this as object) !in mmu.policy.Repr()
      && SlotsMatch(slots, mmu.pageTables)
    }

    /** A slot is left, and pages for it. */
    ghost predicate HasRoom(size: nat)
      reads this, mmu, mmu.policy.Repr()
    {
      |slots| < maxSlots && mmu.Admits(size)
    }

    constructor (mmu: Mmu, maxSlots: nat)
      requires mmu.Valid() && mmu.pageTables == map[]
      ensures Valid() && this.mmu == mmu && this.maxSlots == maxSlots && slots == map[]
    {
      this.mmu := mmu;
      this.maxSlots := maxSlots;
      slots := map[];
    }

    /** A slot whose pages are all resident, or no slot and no change to any process's pages. */
    method AllocateSlot(pid: nat, size: nat) returns (r: Result<nat>)
      requires Valid()
      modifies this, mmu, mmu.policy.Repr()
      ensures Valid() && |mmu.memory| == |old(mmu.memory)|
      ensures size == 0 ==> r == Failure(InvalidAddress)
      ensures size > 0 && |old(slots)| >= maxSlots ==> r == Failure(OutOfMemory)
      ensures size > 0 && |old(slots)| < maxSlots && pid in old(slots) ==> r == Failure(InvalidPid)
      ensures r.Failure? ==> slots == old(slots) && Pages(mmu.State()) == Pages(old(mmu.State()))
      ensures r.Success? ==>
                && pid !in old(slots) && |old(slots)| < maxSlots
                && slots == old(slots)[pid := size] && AllPresent(mmu.pageTables[pid])
                && Pages(mmu.State()) - {pid} == Pages(old(mmu.State()))
      ensures size > 0 && |old(slots)| < maxSlots && pid !in old(slots) ==>
                (r.Failure? ==> r.error == OutOfMemory) && (old(HasRoom(size)) ==> r.Success?)
      ensures r.Success? && !mmu.policy.Clock? ==> old(HasRoom(size))
    {
      hide Inv, Pages, Resident, TookFree, Mmu.Admits, Mmu.Valid, SlotsMatch, LeftFor;
      ghost var s := mmu.State();
      SlotKeys(slots, mmu.pageTables);
      if size == 0 {
        return Failure(InvalidAddress);
      }
      if |slots| >= maxSlots {
        return Failure(OutOfMemory);
      }
      if pid in slots {
        return Failure(InvalidPid);
      }
      r := mmu.Allocate(pid, size);
      if r.Failure? {
        SlotsKept(s, mmu.State(), slots);
        return;
      }
      SlotAdded(s, mmu.State(), slots, pid, size);
      slots := slots[pid := size];
    }

    /** The unit always knows a process that has a slot, so only an unknown process is refused. */
    method FreeSlot(pid: nat) returns (r: Result<()>)
      requires Valid()
      modifies this, mmu
      ensures Valid() && |mmu.memory| == |old(mmu.memory)|
      ensures r.Success? <==> pid in old(slots)
      ensures r.Failure? ==> r.error == InvalidPid
      ensures slots == old(slots) - {pid}
      ensures Pages(mmu.State()) == Pages(old(mmu.State())) - {pid}
    {
      hide Inv, Pages, Heard;
      ReleaseSparesOthers(mmu.State(), pid);
      if pid !in slots {
        NothingToRelease(mmu.State(), pid);
        return Failure(InvalidPid);
      }
      var freed := mmu.Deallocate(pid);
      if freed.Failure? {
        assert false;
      }
      slots := slots - {pid};
      return Success(());
    }

    /** Writes the data up to the first page that is not resident. */
    method LoadSegment(pid: nat, data: seq<Block>) returns (r: Result<()>)
      requires Valid()
      modifies mmu, mmu.policy.Repr()
      ensures Valid() && |mmu.memory| == |old(mmu.memory)|
      ensures SameResidency(old(mmu.pageTables), mmu.pageTables)
      ensures pid !in slots ==> r == Failure(InvalidPid)
      ensures pid in slots && |data| > slots[pid] ==> r == Failure(OutOfMemory)
      ensures pid !in slots || |data| > slots[pid] ==> Pages(mmu.State()) == Pages(old(mmu.State()))
      ensures pid in slots && |data| <= slots[pid] ==>
                var k := FirstAbsent(old(mmu.pageTables)[pid], |data|);
                && (if k == |data| then r.Success? else r == Failure(SegmentationFault))
                && Pages(mmu.State()) ==
                   Overlay(Pages(old(mmu.State())), pid, data[..k])
    {
      hide Inv, FirstAbsent, Pages, Overlay, SameResidency, Heard, Marked, NotesAccess;
      NoChange(mmu.State());
      KeysOfPages(mmu.State(), mmu.State());
      if pid !in slots {
        return Failure(InvalidPid);
      }
      if |data| > slots[pid] {
        return Failure(OutOfMemory);
      }
      ghost var table, pages := mmu.pageTables[pid], Pages(mmu.State());
      OverlayNothing(pages, pid);
      var i := 0;
      while i < |data|
        invariant i <= |data| && Valid() && |mmu.memory| == |old(mmu.memory)|
        invariant SameResidency(old(mmu.pageTables), mmu.pageTables)
        invariant i <= FirstAbsent(table, |data|)
        invariant Pages(mmu.State()) == Overlay(pages, pid, data[..i])
      {
        ghost var before := mmu.pageTables;
        StillResident(old(mmu.pageTables), before, pid, i);
        var written := mmu.Write(pid, i, data[i]);
        ResidencyTwice(old(mmu.pageTables), before, mmu.pageTables);
        if written.Failure? {
          return Failure(written.error);
        }
        OverlayNext(pages, pid, data, i);
        i := i + 1;
      }
      assert data[..i] == data;
      return Success(());
    }

    /** The whole segment, if all of it is resident; reading moves nothing. */
    method ReadSegment(pid: nat) returns (r: Result<seq<Block>>)
      requires Valid()
      modifies mmu, mmu.policy.Repr()
      ensures Valid() && |mmu.memory| == |old(mmu.memory)|
      ensures SameResidency(old(mmu.pageTables), mmu.pageTables)
      ensures Pages(mmu.State()) == Pages(old(mmu.State()))
      ensures pid !in slots ==> r == Failure(InvalidPid)
      ensures pid in slots ==>
                r == if AllPresent(old(mmu.pageTables)[pid]) then Success(Pages(old(mmu.State()))[pid])
                     else Failure(SegmentationFault)
    {
      hide Inv, Pages, SameResidency, Heard, Marked, NotesAccess, Mmu.Valid;
      NoChange(mmu.State());
      KeysOfPages(mmu.State(), mmu.State());
      if pid !in slots {
        return Failure(InvalidPid);
      }
      ghost var table, page := mmu.pageTables[pid], Pages(mmu.State())[pid];
      var data: seq<Block> := [];
      var i := 0;
      while i < slots[pid]
        invariant i <= slots[pid] && Valid() && |mmu.memory| == |old(mmu.memory)|
        invariant SameResidency(old(mmu.pageTables), mmu.pageTables)
        invariant Pages(mmu.State()) == Pages(old(mmu.State()))
        invariant data == page[..i]
        invariant forall j | 0 <= j < i :: table[j].present
      {
        ghost var before := mmu.pageTables;
        StillResident(old(mmu.pageTables), before, pid, i);
        var block := mmu.Read(pid, i);
        ResidencyTwice(old(mmu.pageTables), before, mmu.pageTables);
        if block.Failure? {
          return Failure(block.error);
        }
        data := data + [block.value];
        i := i + 1;
      }
      assert page[..i] == page;
      return Success(data);
    }
  }

  /** The pages of `pid` with `data` laid over their front. */
  ghost function Overlay(pages: map<nat, seq<Block>>, pid: nat, data: seq<Block>): map<nat, seq<Block>>
    requires pid in pages && |data| <= |pages[pid]|
  {
    pages[pid := data + pages[pid][|data|..]]
  }

  lemma OverlayNothing(pages: map<nat, seq<Block>>, pid: nat)
    requires pid in pages
    ensures Overlay(pages, pid, []) == pages
  {
    assert [] + pages[pid][0..] == pages[pid];
  }

  lemma OverlayNext(pages: map<nat, seq<Block>>, pid: nat, data: seq<Block>, i: nat)
    requires pid in pages && i < |data| <= |pages[pid]|
    ensures var now := Overlay(pages, pid, data[..i]);
            pid in now && |now[pid]| == |pages[pid]| &&
            now[pid := now[pid][i := data[i]]] == Overlay(pages, pid, data[..i + 1])
  {
    assert (data[..i] + pages[pid][i..])[i := data[i]] == data[..i + 1] + pages[pid][i + 1..];
  }

  /** The page has kept its place and whether it is present. */
  lemma StillResident(a: map<nat, seq<Entry>>, b: map<nat, seq<Entry>>, pid: nat, vp: nat)
    requires SameResidency(a, b) && pid in a && vp < |a[pid]|
    ensures Resident(b, Page(pid, vp)) <==> a[pid][vp].present
    ensures a[pid][vp].present ==> Translate(b, pid, vp).Success?
    ensures !a[pid][vp].present ==> Translate(b, pid, vp) == Failure(SegmentationFault)
  {
    assert Resident(a, Page(pid, vp)) <==> a[pid][vp].present;
  }

  lemma KeysOfPages(s: Paging, t: Paging)
    ensures Pages(s).Keys == s.tables.Keys && Pages(t).Keys == t.tables.Keys
    ensures forall pid | pid in s.tables :: |Pages(s)[pid]| == |s.tables[pid]|
    ensures forall pid | pid in t.tables :: |Pages(t)[pid]| == |t.tables[pid]|
  {
  }

  /** Loading a segment into a fresh slot always succeeds. */
  lemma NothingAbsent(table: seq<Entry>, n: nat)
    requires AllPresent(table) && n <= |table|
    ensures FirstAbsent(table, n) == n
  {
  }

  /** What was loaded into a slot of its own size is what the segment is. */
  lemma OverlayReadBack(pages: map<nat, seq<Block>>, pid: nat, data: seq<Block>)
    requires pid in pages && |data| <= |pages[pid]|
    ensures Overlay(pages, pid, data)[pid][..|data|] == data
    ensures |data| == |pages[pid]| ==> Overlay(pages, pid, data)[pid] == data
    ensures Overlay(pages, pid, data) - {pid} == pages - {pid}
  {
  }

  lemma ResidencyTwice(a: map<nat, seq<Entry>>, b: map<nat, seq<Entry>>, c: map<nat, seq<Entry>>)
    requires SameResidency(a, b) && SameResidency(b, c)
    ensures SameResidency(a, c)
  {
    forall q: Page
      ensures Resident(c, q) == Resident(a, q)
    {
      assert Resident(b, q) == Resident(a, q);
    }
  }
}
