/** Whole runs of the memory management unit: paging never shows. */
module PagingRuns {
  import opened Core
  import opened PagingState
  import opened MemoryManagement
  import opened AllocationRoom
  import opened ReplacementHistory

  datatype Op =
    | DoRead(pid: nat, vp: nat)
    | DoWrite(pid: nat, vp: nat, block: Block)
    | DoAllocate(pid: nat, pageCount: nat)
    | DoDeallocate(pid: nat)
    | DoSwapIn(pid: nat, vp: nat)
    | DoSwapOut(pid: nat, vp: nat)

  /** What an operation answers: whether it succeeded, and for a read the block. */
  datatype Answer = Answer(ok: bool, block: Block)

  predicate Writes(op: Op, p: Page) {
    op.DoWrite? && op.pid == p.pid && op.vp == p.vp
  }

  predicate Reads(op: Op, p: Page) {
    op.DoRead? && op.pid == p.pid && op.vp == p.vp
  }

  /** The block last written to page `p`, or what it held before. */
  function LastWritten(p: Page, before: Block, ops: seq<Op>, answers: seq<Answer>): Block
    requires |answers| == |ops|
  {
    if ops == [] then before
    else
      var n := |ops| - 1;
      if Writes(ops[n], p) && answers[n].ok then ops[n].block
      else LastWritten(p, before, ops[..n], answers[..n])
  }

  predicate IsAccess(op: Op) {
    op.DoRead? || op.DoWrite?
  }

  /** How many accesses the policy has been told of. */
  ghost function Accesses(h: Uses): nat {
    if h == [] then 0 else Accesses(h[..|h| - 1]) + (if h[|h| - 1].Accessed? then 1 else 0)
  }

  lemma {:induction false} LoadsAreNoAccesses(u: Uses, v: Uses)
    requires NoAccess(u, v)
    ensures Accesses(v) == Accesses(u)
    decreases |v|
  {
    if |u| < |v| {
      assert !v[|v| - 1].Accessed?;
      LoadsAreNoAccesses(u, v[..|v| - 1]);
    } else {
      assert u == v;
    }
  }

  lemma OneMoreAccess(u: Uses, f: nat)
    ensures Accesses(u + [Accessed(f)]) == Accesses(u) + 1
  {
    assert (u + [Accessed(f)])[..|u|] == u;
  }

  /** The reads and writes of a run that succeeded. */
  function Succeeded(ops: seq<Op>, answers: seq<Answer>): nat
    requires |answers| == |ops|
  {
    if ops == [] then 0
    else
      var n := |ops| - 1;
      Succeeded(ops[..n], answers[..n]) + (if IsAccess(ops[n]) && answers[n].ok then 1 else 0)
  }

  /** What one operation tells the policy, and whom it drives from memory. */
  ghost predicate Told(op: Op, ok: bool, tables: map<nat, seq<Entry>>, tables': map<nat, seq<Entry>>, uses: Uses, uses': Uses) {
    && uses <= uses' && Accesses(uses') == Accesses(uses) + (if IsAccess(op) && ok then 1 else 0)
    && (IsAccess(op) && ok ==>
          HasPage(tables, Page(op.pid, op.vp)) && uses' == uses + [Accessed(tables[op.pid][op.vp].frame)])
    && forall q: Page | Resident(tables, q) && op != DoDeallocate(q.pid) && op != DoSwapOut(q.pid, q.vp) ::
         StaysOrEvicted(tables, tables', uses'[|uses|..], q)
  }

  lemma ToldOfAccess(op: Op, ok: bool, tables: map<nat, seq<Entry>>, write: bool, uses: Uses)
    requires IsAccess(op) && (ok <==> Resident(tables, Page(op.pid, op.vp)))
    ensures NoAccess(uses, uses)
    ensures var p := Page(op.pid, op.vp);
            Told(op, ok, tables, if ok then Marked(tables, p, write) else tables, uses,
                 if ok then uses + [Accessed(tables[op.pid][op.vp].frame)] else uses)
  {
    if ok {
      OneMoreAccess(uses, tables[op.pid][op.vp].frame);
    }
  }

  lemma ToldOfLoads(op: Op, ok: bool, tables: map<nat, seq<Entry>>, tables': map<nat, seq<Entry>>, uses: Uses, uses': Uses)
    requires !IsAccess(op) && LeftFor(tables, tables', uses, uses')
    ensures Told(op, ok, tables, tables', uses, uses')
  {
    LoadsAreNoAccesses(uses, uses');
  }

  lemma ToldOfRelease(op: Op, ok: bool, tables: map<nat, seq<Entry>>, uses: Uses)
    ensures op.DoDeallocate? ==> Told(op, ok, tables, tables - {op.pid}, uses, uses)
    ensures op.DoSwapOut? ==>
              Told(op, ok, tables, if Resident(tables, Page(op.pid, op.vp))
                                   then SetEntry(tables, Page(op.pid, op.vp), UNMAPPED) else tables, uses, uses)
  {
  }

  /** One operation more, seen from page `p`. */
  lemma ToldPage(op: Op, ok: bool, a: map<nat, seq<Entry>>, b: map<nat, seq<Entry>>, c: map<nat, seq<Entry>>,
                 u: Uses, v: Uses, w: Uses, p: Page)
    requires Told(op, ok, b, c, v, w) && u <= v
    ensures u <= w && Accesses(w) == Accesses(v) + (if IsAccess(op) && ok then 1 else 0)
    ensures Resident(a, p) && op != DoDeallocate(p.pid) && op != DoSwapOut(p.pid, p.vp) ==>
              (StaysOrEvicted(a, b, v[|u|..], p) ==> StaysOrEvicted(a, c, w[|u|..], p))
  {
    assert w[|u|..] == v[|u|..] + w[|v|..];
    if Resident(a, p) && Resident(b, p) && op != DoDeallocate(p.pid) && op != DoSwapOut(p.pid, p.vp) {
      assert StaysOrEvicted(b, c, w[|v|..], p);
    }
  }

  /** Page `p` after one operation with a given answer. */
  function PageAfter(p: Page, before: Block, op: Op, answer: Answer): Block {
    if Writes(op, p) && answer.ok then op.block else before
  }

  /** One operation, seen from a page that it does not deallocate. */
  method Perform(m: Mmu, op: Op, ghost p: Page) returns (answer: Answer)
    requires m.Valid() && HasPage(m.pageTables, p) && op != DoDeallocate(p.pid)
    modifies m, m.policy.Repr()
    ensures m.Valid() && HasPage(m.pageTables, p)
    ensures Content(m.State(), p) == PageAfter(p, old(Content(m.State(), p)), op, answer)
    ensures Reads(op, p) && answer.ok ==> answer.block == old(Content(m.State(), p))
    ensures (op.DoSwapIn? || op.DoSwapOut?) && op.pid == p.pid && op.vp == p.vp ==> answer.ok
    ensures Told(op, answer.ok, old(m.pageTables), m.pageTables, old(m.uses), m.uses)
  {
    hide Inv, Pages, Content, Release, SameResidency, Moved, Told, Marked, LeftFor, SetEntry, Heard;
    ghost var s, tables, uses := m.State(), m.pageTables, m.uses;
    SeenInPages(s, p);
    answer := Answer(false, NOP);
    match op {
      case DoRead(pid, vp) =>
        var r := m.Read(pid, vp);
        if r.Success? {
          answer := Answer(true, r.value);
        }
        ToldOfAccess(op, r.Success?, tables, false, uses);
      case DoWrite(pid, vp, block) =>
        var r := m.Write(pid, vp, block);
        answer := Answer(r.Success?, NOP);
        ToldOfAccess(op, r.Success?, tables, true, uses);
        SeenInPages(s, Page(pid, vp));
        WrittenPage(Pages(s), p, pid, vp, block);
      case DoAllocate(pid, pageCount) =>
        var r := m.Allocate(pid, pageCount);
        answer := Answer(r.Success?, NOP);
        ToldOfLoads(op, answer.ok, tables, m.pageTables, uses, m.uses);
        if r.Success? {
          OtherPages(Pages(s), Pages(m.State()), pid, p.pid);
        }
      case DoDeallocate(pid) =>
        var r := m.Deallocate(pid);
        answer := Answer(r.Success?, NOP);
        ToldOfRelease(op, answer.ok, tables, uses);
      case DoSwapIn(pid, vp) =>
        var r := m.SwapIn(pid, vp);
        answer := Answer(r.Success?, NOP);
        ToldOfLoads(op, answer.ok, tables, m.pageTables, uses, m.uses);
      case DoSwapOut(pid, vp) =>
        var r := m.SwapOut(pid, vp);
        answer := Answer(r.Success?, NOP);
        ToldOfRelease(op, answer.ok, tables, uses);
    }
    SeenInPages(m.State(), p);
  }

  lemma SeenInPages(s: Paging, p: Page)
    ensures HasPage(s.tables, p) <==> p.pid in Pages(s) && p.vp < |Pages(s)[p.pid]|
    ensures HasPage(s.tables, p) ==> Pages(s)[p.pid][p.vp] == Content(s, p)
  {
  }

  lemma OtherPages(pages: map<nat, seq<Block>>, pages': map<nat, seq<Block>>, pid: nat, q: nat)
    requires pages' - {pid} == pages && q in pages
    ensures q in pages' && pages'[q] == pages[q]
  {
    assert q in pages' - {pid};
  }

  lemma WrittenPage(pages: map<nat, seq<Block>>, p: Page, pid: nat, vp: nat, block: Block)
    requires p.pid in pages && p.vp < |pages[p.pid]|
    ensures pid in pages && vp < |pages[pid]| ==>
              var pages' := pages[pid := pages[pid][vp := block]];
              && p.pid in pages' && p.vp < |pages'[p.pid]|
              && pages'[p.pid][p.vp] == if p == Page(pid, vp) then block else pages[p.pid][p.vp]
  {
  }

  /**
   Main result. Whatever is read, written, allocated, deallocated and swapped, under any of the
   three policies: a page holds the block last written to it until its process is deallocated,
   every successful read of it returns that block, and swapping it never fails. The policy is told
   of every successful access; under LRU each of its victims was the frame with the oldest last
   use, under FIFO the one loaded first. A page leaves memory only by being swapped out, or because
   its frame was such a victim.
   */
  method RunAll(m: Mmu, ops: seq<Op>, ghost p: Page) returns (answers: seq<Answer>)
    requires m.Valid() && HasPage(m.pageTables, p) && DoDeallocate(p.pid) !in ops
    modifies m, m.policy.Repr()
    ensures m.Valid() && HasPage(m.pageTables, p) && |answers| == |ops|
    ensures Content(m.State(), p) == LastWritten(p, old(Content(m.State(), p)), ops, answers)
    ensures Faithful(p, old(Content(m.State(), p)), ops, answers)
    ensures (m.policy.Lru? ==> EvictsOldest(m.uses)) && (m.policy.Fifo? ==> EvictsFirst(m.uses))
    ensures old(m.uses) <= m.uses && Accesses(m.uses) == Accesses(old(m.uses)) + Succeeded(ops, answers)
    ensures Resident(old(m.pageTables), p) && DoSwapOut(p.pid, p.vp) !in ops ==>
              StaysOrEvicted(old(m.pageTables), m.pageTables, m.uses[|old(m.uses)|..], p)
  {
    hide Inv, Pages, Content, HasPage, Told, EvictsOldest, EvictsFirst, Heard, Mmu.Valid, Resident, StaysOrEvicted,
         Faithful, LastWritten, Succeeded;
    answers := [];
    ghost var before := Content(m.State(), p);
    NothingDone(p, before);
    StaysForNow(m.pageTables, m.uses[|m.uses|..], p);
    for k := 0 to |ops|
      invariant m.Valid() && HasPage(m.pageTables, p) && |answers| == k
      invariant Content(m.State(), p) == LastWritten(p, before, ops[..k], answers)
      invariant Faithful(p, before, ops[..k], answers)
      invariant old(m.uses) <= m.uses && Accesses(m.uses) == Accesses(old(m.uses)) + Succeeded(ops[..k], answers)
      invariant Resident(old(m.pageTables), p) && DoSwapOut(p.pid, p.vp) !in ops ==>
                  StaysOrEvicted(old(m.pageTables), m.pageTables, m.uses[|old(m.uses)|..], p)
    {
      ghost var tables, uses := m.pageTables, m.uses;
      var answer := Perform(m, ops[k], p);
      ToldPage(ops[k], answer.ok, old(m.pageTables), tables, m.pageTables, old(m.uses), uses, m.uses, p);
      OneMoreDone(p, before, ops[..k], answers, ops[k], answer);
      assert ops[..k + 1] == ops[..k] + [ops[k]];
      answers := answers + [answer];
    }
    assert ops[..|ops|] == ops;
    VictimsInOrder(m);
  }

  /** Every successful read of `p` gave the block last written, and `p` was swapped whenever asked. */
  ghost predicate Faithful(p: Page, before: Block, ops: seq<Op>, answers: seq<Answer>)
    requires |answers| == |ops|
  {
    && (forall i | 0 <= i < |ops| && Reads(ops[i], p) && answers[i].ok ::
          answers[i].block == LastWritten(p, before, ops[..i], answers[..i]))
    && (forall i | 0 <= i < |ops| && (ops[i].DoSwapIn? || ops[i].DoSwapOut?) && ops[i].pid == p.pid && ops[i].vp == p.vp ::
          answers[i].ok)
  }

  lemma NothingDone(p: Page, before: Block)
    ensures Faithful(p, before, [], []) && LastWritten(p, before, [], []) == before && Succeeded([], []) == 0
  {
  }

  lemma OneMoreDone(p: Page, before: Block, ops: seq<Op>, answers: seq<Answer>, op: Op, answer: Answer)
    requires |answers| == |ops| && Faithful(p, before, ops, answers)
    requires Reads(op, p) && answer.ok ==> answer.block == LastWritten(p, before, ops, answers)
    requires (op.DoSwapIn? || op.DoSwapOut?) && op.pid == p.pid && op.vp == p.vp ==> answer.ok
    ensures Faithful(p, before, ops + [op], answers + [answer])
    ensures LastWritten(p, before, ops + [op], answers + [answer]) ==
            PageAfter(p, LastWritten(p, before, ops, answers), op, answer)
    ensures Succeeded(ops + [op], answers + [answer]) == Succeeded(ops, answers) + (if IsAccess(op) && answer.ok then 1 else 0)
  {
    var ops', answers' := ops + [op], answers + [answer];
    assert ops'[..|ops|] == ops && answers'[..|ops|] == answers;
    hide LastWritten;
    forall i | 0 <= i < |ops|
      ensures ops'[i] == ops[i] && answers'[i] == answers[i] && ops'[..i] == ops[..i] && answers'[..i] == answers[..i]
    {
    }
  }

  lemma StaysForNow(tables: map<nat, seq<Entry>>, asked: Uses, p: Page)
    ensures Resident(tables, p) ==> StaysOrEvicted(tables, tables, asked, p)
  {
  }

  lemma VictimsInOrder(m: Mmu)
    requires m.Valid()
    ensures (m.policy.Lru? ==> EvictsOldest(m.uses)) && (m.policy.Fifo? ==> EvictsFirst(m.uses))
  {
  }

  // ---------------------------------------------------------------- a refusal that stale entries cause

  lemma NothingResident(s: Paging)
    requires Inv(s, None) && forall p: Page :: !Resident(s.tables, p)
    ensures forall f: nat :: f in s.free <==> f < |s.memory|
  {
    forall f: nat
      ensures f !in s.owners
    {
      assert f in s.owners ==> Holds(s, f, s.holder[f]);
    }
  }

  lemma ResidentFrameIsTaken(s: Paging, p: Page)
    requires Inv(s, None) && Resident(s.tables, p)
    ensures s.tables[p.pid][p.vp].frame < |s.memory| && s.tables[p.pid][p.vp].frame !in s.free
  {
  }

  /** Of two frames one has been taken and queued. */
  lemma OneOfTwo(queue0: seq<nat>, free: set<nat>, queue: seq<nat>, frame: nat)
    requires TookFree({0, 1}, queue0, free, queue, 1) && frame < 2 && frame !in free
    ensures queue == queue0 + [frame] && free == {1 - frame}
  {
    var first: seq<nat> :|
      |first| == 1 && Members(first) <= {0, 1} && free == {0, 1} - Members(first) && queue == queue0 + first;
    assert first[0] in Members(first) && first == [first[0]];
    assert Members(first) == {first[0]};
    assert frame in {0, 1};
  }

  /** With one frame free, two pages find room unless the oldest entry is that of the free frame. */
  lemma RoomForTwo(x: nat, y: nat)
    requires x < 2 && y < 2
    ensures FifoRoom([x, y], {1 - y}, 2) <==> x == y
  {
    assert [x, y][..1] == [x];
    if FifoRoom([x, y], {1 - y}, 2) {
      assert [x, y][0] !in {1 - y};
    }
  }

  /** A process with one page, in a memory of two frames that holds nothing else. */
  method TakeOnePage(m: Mmu, pid: nat) returns (frame: nat)
    requires m.Valid() && m.policy.Fifo? && |m.memory| == 2 && pid !in m.pageTables
    requires forall p: Page :: !Resident(m.pageTables, p)
    modifies m, m.policy.Repr()
    ensures m.Valid() && |m.memory| == 2 && frame < 2 && m.freeFrames == {1 - frame}
    ensures m.policy.Queue() == old(m.policy.Queue()) + [frame]
    ensures m.pageTables.Keys == old(m.pageTables).Keys + {pid} && HasPage(m.pageTables, Page(pid, 0))
    ensures forall p: Page :: Resident(m.pageTables, p) ==> p == Page(pid, 0)
  {
    hide Inv, Pages, TookFree, Mmu.Admits;
    NothingResident(m.State());
    assert m.freeFrames == {0, 1};
    assert |{0, 1}| == 2;
    KeysOfState(m.State());
    ghost var queue, keys := m.policy.Queue(), m.pageTables.Keys;
    var r := m.Allocate(pid, 1);
    if r.Failure? {
      assert false;
    }
    KeysOfState(m.State());
    frame := m.pageTables[pid][0].frame;
    ResidentFrameIsTaken(m.State(), Page(pid, 0));
    OneOfTwo(queue, m.freeFrames, m.policy.Queue(), frame);
  }

  lemma KeysOfState(s: Paging)
    ensures Pages(s).Keys == s.tables.Keys
  {
  }

  /**
   In two frames, A gets a page and is swapped out, B gets a page, and C asks for two. Under FIFO
   C is refused exactly if B got the other frame: the entry of A's frame is stale then, and C,
   which takes that frame first, meets it as its own.
   */
  method RefusedThoughItFits(m: Mmu) returns (refused: bool, other: bool)
    requires m.Valid() && m.policy.Fifo? && |m.memory| == 2 && m.pageTables == map[] && m.policy.Queue() == []
    modifies m, m.policy.Repr()
    ensures refused <==> other
  {
    hide Inv, Pages, TookFree, FifoRoom;
    var a := TakeOnePage(m, 1);
    KeysOfState(m.State());
    var swapped := m.SwapOut(1, 0);
    KeysOfState(m.State());
    assert m.policy.Queue() == [a];
    var b := TakeOnePage(m, 2);
    assert m.policy.Queue() == [a, b];
    RoomForTwo(a, b);
    assert |m.freeFrames| == 1 && m.pageTables.Keys == {1, 2};
    var r := m.Allocate(3, 2);
    return r.Failure?, a != b;
  }
}
