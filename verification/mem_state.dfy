/** Frames, page tables and swap space, and the steps by which pages move between them. */
module PagingState {
  import opened Core

  const INVALID_FRAME: nat := 0xFFFF_FFFF

  /** One memory cell. */
  datatype Block = Block(code: nat, reg: nat, operand: int, state: int)

  const NOP := Block(0, 0, 0, 0)

  datatype Entry = Entry(frame: nat, present: bool, dirty: bool, referenced: bool)

  const UNMAPPED := Entry(INVALID_FRAME, false, false, false)

  datatype Page = Page(pid: nat, vp: nat)

  datatype Paging = Paging(
    memory: seq<Block>,
    tables: map<nat, seq<Entry>>,
    free: set<nat>,
    owners: map<nat, nat>,
    swap: map<Page, Block>,
    holder: map<nat, Page>)

  ghost predicate HasPage(tables: map<nat, seq<Entry>>, p: Page) {
    p.pid in tables && p.vp < |tables[p.pid]|
  }

  ghost predicate Resident(tables: map<nat, seq<Entry>>, p: Page) {
    HasPage(tables, p) && tables[p.pid][p.vp].present
  }

  /** What a process finds in its page: its frame if present, else its swap entry. */
  ghost function Content(s: Paging, p: Page): Block {
    if Resident(s.tables, p) && s.tables[p.pid][p.vp].frame < |s.memory| then s.memory[s.tables[p.pid][p.vp].frame]
    else if p in s.swap then s.swap[p]
    else NOP
  }

  /** All pages of all processes. */
  ghost function Pages(s: Paging): map<nat, seq<Block>> {
    map pid | pid in s.tables :: PagesOf(s, pid)
  }

  ghost function PagesOf(s: Paging, pid: nat): (r: seq<Block>)
    requires pid in s.tables
    ensures |r| == |s.tables[pid]|
    ensures forall vp | 0 <= vp < |r| :: r[vp] == Content(s, Page(pid, vp))
  {
    seq(|s.tables[pid]|, vp requires 0 <= vp => Content(s, Page(pid, vp)))
  }

  // ---------------------------------------------------------------- invariant

  /** Free and owned frames partition physical memory. */
  ghost predicate Partition(s: Paging) {
    && (forall f | f in s.free :: f < |s.memory| && f !in s.owners)
    && (forall f | f in s.owners :: f < |s.memory| && f !in s.free)
    && (forall f: nat | f < |s.memory| :: f in s.free || f in s.owners)
  }

  /** Every owned frame holds exactly one present page, of its owner. */
  ghost predicate Held(s: Paging) {
    && s.holder.Keys == s.owners.Keys
    && (forall f | f in s.holder :: Holds(s, f, s.holder[f]))
    && (forall p: Page | Resident(s.tables, p) ::
          s.tables[p.pid][p.vp].frame in s.holder && s.holder[s.tables[p.pid][p.vp].frame] == p)
  }

  ghost predicate Holds(s: Paging, f: nat, p: Page) {
    && f in s.owners && s.owners[f] == p.pid
    && Resident(s.tables, p) && s.tables[p.pid][p.vp].frame == f
  }

  /** A page of a process whose allocation has come to page `k` and that is not mapped yet. */
  ghost predicate Pending(pend: Option<Page>, p: Page) {
    pend.Some? && p.pid == pend.value.pid && pend.value.vp <= p.vp
  }

  /** Every page is present or in swap but not both, unless it is still to be mapped. */
  ghost predicate Swapped(s: Paging, pend: Option<Page>) {
    && (forall p | p in s.swap :: HasPage(s.tables, p) && !Resident(s.tables, p) && !Pending(pend, p))
    && (forall p: Page | HasPage(s.tables, p) && Pending(pend, p) :: !Resident(s.tables, p))
    && (forall p: Page | HasPage(s.tables, p) && !Pending(pend, p) && !Resident(s.tables, p) :: p in s.swap)
  }

  ghost predicate Inv(s: Paging, pend: Option<Page>) {
    Partition(s) && Held(s) && Swapped(s, pend)
  }

  /** What the invariant means for frames and pages. */
  lemma FrameSafety(s: Paging)
    requires Inv(s, None)
    ensures forall f: nat :: f < |s.memory| <==> f in s.free || f in s.owners
    ensures forall f: nat :: !(f in s.free && f in s.owners)
    ensures forall p: Page, q: Page | Resident(s.tables, p) && Resident(s.tables, q) && p != q ::
              s.tables[p.pid][p.vp].frame != s.tables[q.pid][q.vp].frame
    ensures forall p: Page | Resident(s.tables, p) ::
              var f := s.tables[p.pid][p.vp].frame; f < |s.memory| && f in s.owners && s.owners[f] == p.pid
    ensures forall p: Page :: HasPage(s.tables, p) <==> (Resident(s.tables, p) || p in s.swap)
    ensures forall p: Page :: !(Resident(s.tables, p) && p in s.swap)
  {
  }

  // ---------------------------------------------------------------- steps

  ghost function SetEntry(tables: map<nat, seq<Entry>>, p: Page, e: Entry): map<nat, seq<Entry>>
    requires HasPage(tables, p)
  {
    tables[p.pid := tables[p.pid][p.vp := e]]
  }

  /** The page in frame `f` goes to swap and the frame is free. */
  ghost function Evict(s: Paging, f: nat): Paging
    requires f in s.holder && HasPage(s.tables, s.holder[f]) && f < |s.memory|
  {
    var p := s.holder[f];
    s.(tables := SetEntry(s.tables, p, UNMAPPED),
       swap := s.swap[p := s.memory[f]],
       free := s.free + {f},
       owners := s.owners - {f},
       holder := s.holder - {f})
  }

  /** Page `p` comes into the free frame `f` with content `b`. */
  ghost function Load(s: Paging, p: Page, f: nat, b: Block): Paging
    requires HasPage(s.tables, p) && f < |s.memory|
  {
    s.(memory := s.memory[f := b],
       tables := SetEntry(s.tables, p, Entry(f, true, false, true)),
       swap := s.swap - {p},
       free := s.free - {f},
       owners := s.owners[f := p.pid],
       holder := s.holder[f := p])
  }

  /** Swap space without the entries of `pid`. */
  function SwapWithout(swap: map<Page, Block>, pid: nat): map<Page, Block> {
    map p | p in swap && p.pid != pid :: swap[p]
  }

  /** Everything of process `pid` is gone and its frames are free. */
  ghost function Release(s: Paging, pid: nat): Paging {
    var frames := set f | f in s.owners && s.owners[f] == pid;
    s.(tables := s.tables - {pid},
       swap := SwapWithout(s.swap, pid),
       free := s.free + frames,
       owners := s.owners - frames,
       holder := s.holder - frames)
  }

  lemma EvictKeepsInv(s: Paging, pend: Option<Page>, f: nat)
    requires Inv(s, pend) && f in s.owners
    ensures Inv(Evict(s, f), pend)
  {
    hide Holds, Swapped, HasPage, Resident, Evict;
    EvictPartition(s, f);
    assert Holds(s, f, s.holder[f]);
    VictimInMemory(s, f);
    EvictHeld(s, f);
    EvictSwapped(s, pend, f);
  }

  lemma VictimInMemory(s: Paging, f: nat)
    requires Partition(s) && f in s.owners
    ensures f < |s.memory|
  {
  }

  lemma EvictPartition(s: Paging, f: nat)
    requires Partition(s) && Held(s) && f in s.owners
    ensures Partition(Evict(s, f))
  {
  }

  lemma EvictHeld(s: Paging, f: nat)
    requires Held(s) && f in s.holder && f < |s.memory|
    ensures Held(Evict(s, f))
  {
    var t, p := Evict(s, f), s.holder[f];
    assert Holds(s, f, p);
    forall g | g in t.holder
      ensures Holds(t, g, t.holder[g])
    {
      assert Holds(s, g, s.holder[g]);
    }
    forall q: Page | Resident(t.tables, q)
      ensures t.tables[q.pid][q.vp].frame in t.holder && t.holder[t.tables[q.pid][q.vp].frame] == q
    {
      assert Resident(s.tables, q);
    }
  }

  lemma EvictSwapped(s: Paging, pend: Option<Page>, f: nat)
    requires Swapped(s, pend) && f in s.holder && Holds(s, f, s.holder[f]) && f < |s.memory|
    ensures Swapped(Evict(s, f), pend)
  {
    var t, p := Evict(s, f), s.holder[f];
    assert forall q: Page | q != p ::
        HasPage(t.tables, q) == HasPage(s.tables, q) && Resident(t.tables, q) == Resident(s.tables, q);
  }

  /** Going to swap changes no page's content. */
  lemma EvictIsUnseen(s: Paging, pend: Option<Page>, f: nat)
    requires Inv(s, pend) && f in s.owners
    ensures Pages(Evict(s, f)) == Pages(s)
  {
    var t, p := Evict(s, f), s.holder[f];
    assert Holds(s, f, p);
    forall q: Page | HasPage(s.tables, q)
      ensures HasPage(t.tables, q) && Content(t, q) == Content(s, q)
    {
    }
    SamePages(s, t);
  }

  lemma SamePages(s: Paging, t: Paging)
    requires s.tables.Keys == t.tables.Keys
    requires forall pid | pid in s.tables :: |s.tables[pid]| == |t.tables[pid]|
    requires forall q: Page | HasPage(s.tables, q) :: Content(t, q) == Content(s, q)
    ensures Pages(s) == Pages(t)
  {
    forall pid | pid in s.tables
      ensures PagesOf(s, pid) == PagesOf(t, pid)
    {
      forall vp | 0 <= vp < |s.tables[pid]|
        ensures Content(t, Page(pid, vp)) == Content(s, Page(pid, vp))
      {
        assert HasPage(s.tables, Page(pid, vp));
      }
    }
  }

  lemma LoadHeld(s: Paging, p: Page, f: nat, b: Block)
    requires Partition(s) && Held(s) && HasPage(s.tables, p) && !Resident(s.tables, p) && f in s.free
    ensures Partition(Load(s, p, f, b)) && Held(Load(s, p, f, b))
  {
    var t := Load(s, p, f, b);
    assert Holds(t, f, p);
    forall g | g in t.holder && g != f
      ensures Holds(t, g, t.holder[g])
    {
      assert Holds(s, g, s.holder[g]);
    }
    forall q: Page | Resident(t.tables, q)
      ensures t.tables[q.pid][q.vp].frame in t.holder && t.holder[t.tables[q.pid][q.vp].frame] == q
    {
      if q != p {
        assert Resident(s.tables, q);
      }
    }
  }

  lemma LoadSwapped(s: Paging, pend: Option<Page>, p: Page, f: nat, b: Block, pend': Option<Page>)
    requires Swapped(s, pend) && HasPage(s.tables, p) && f < |s.memory|
    requires forall q: Page | HasPage(s.tables, q) :: Pending(pend', q) <==> Pending(pend, q) && q != p
    ensures Swapped(Load(s, p, f, b), pend')
  {
    var t := Load(s, p, f, b);
    forall q: Page | q != p
      ensures HasPage(t.tables, q) == HasPage(s.tables, q) && Resident(t.tables, q) == Resident(s.tables, q)
    {
    }
    assert Resident(t.tables, p);
  }

  lemma LoadKeepsInv(s: Paging, pend: Option<Page>, p: Page, f: nat, b: Block, pend': Option<Page>)
    requires Inv(s, pend) && HasPage(s.tables, p) && !Resident(s.tables, p) && f in s.free
    requires forall q: Page | HasPage(s.tables, q) :: Pending(pend', q) <==> Pending(pend, q) && q != p
    ensures Inv(Load(s, p, f, b), pend')
  {
    hide Held, Swapped;
    LoadHeld(s, p, f, b);
    LoadSwapped(s, pend, p, f, b, pend');
  }

  /** Coming back from swap with its own content changes no page's content. */
  lemma LoadIsUnseen(s: Paging, pend: Option<Page>, p: Page, f: nat)
    requires Inv(s, pend) && p in s.swap && f in s.free
    ensures Pages(Load(s, p, f, s.swap[p])) == Pages(s)
  {
    var t := Load(s, p, f, s.swap[p]);
    forall q: Page | HasPage(s.tables, q)
      ensures HasPage(t.tables, q) && Content(t, q) == Content(s, q)
    {
      if q != p && Resident(s.tables, q) {
        assert Holds(s, s.tables[q.pid][q.vp].frame, q);
      }
    }
    SamePages(s, t);
  }

  /** Mapping a page of a process that is being set up changes nothing for the others. */
  lemma LoadSparesOthers(s: Paging, pend: Option<Page>, p: Page, f: nat)
    requires Inv(s, pend) && HasPage(s.tables, p) && !Resident(s.tables, p) && p !in s.swap && f in s.free
    ensures Pages(Load(s, p, f, s.memory[f])) - {p.pid} == Pages(s) - {p.pid}
  {
    var t := Load(s, p, f, s.memory[f]);
    forall q: Page | HasPage(s.tables, q) && q != p
      ensures HasPage(t.tables, q) && Content(t, q) == Content(s, q)
    {
      if Resident(s.tables, q) {
        assert Holds(s, s.tables[q.pid][q.vp].frame, q);
      }
    }
    SamePagesBut(s, t, p.pid);
  }

  lemma SamePagesBut(s: Paging, t: Paging, pid: nat)
    requires forall p | p != pid :: p in s.tables <==> p in t.tables
    requires forall p | p in s.tables && p != pid :: |s.tables[p]| == |t.tables[p]|
    requires forall q: Page | HasPage(s.tables, q) && q.pid != pid :: Content(t, q) == Content(s, q)
    ensures Pages(t) - {pid} == Pages(s) - {pid}
  {
    forall p | p in s.tables && p != pid
      ensures PagesOf(s, p) == PagesOf(t, p)
    {
      forall vp | 0 <= vp < |s.tables[p]|
        ensures Content(t, Page(p, vp)) == Content(s, Page(p, vp))
      {
        assert HasPage(s.tables, Page(p, vp));
      }
    }
  }

  // ---------------------------------------------------------------- setting up and tearing down a process

  /** A table of `n` unmapped pages, all of them still to be mapped. */
  ghost function NewTable(s: Paging, pid: nat, n: nat): Paging {
    s.(tables := s.tables[pid := seq(n, _ => UNMAPPED)])
  }

  lemma NewTableKeepsInv(s: Paging, pid: nat, n: nat)
    requires Inv(s, None) && pid !in s.tables
    ensures Inv(NewTable(s, pid, n), Some(Page(pid, 0)))
  {
    var t := NewTable(s, pid, n);
    forall q: Page
      ensures Resident(t.tables, q) == Resident(s.tables, q)
      ensures q.pid != pid ==> HasPage(t.tables, q) == HasPage(s.tables, q)
    {
    }
    forall g | g in t.holder
      ensures Holds(t, g, t.holder[g])
    {
      assert Holds(s, g, s.holder[g]);
    }
  }

  lemma NewTableSparesOthers(s: Paging, pid: nat, n: nat)
    requires pid !in s.tables
    ensures Pages(NewTable(s, pid, n)) - {pid} == Pages(s)
  {
    var t := NewTable(s, pid, n);
    forall q: Page | HasPage(s.tables, q) && q.pid != pid
      ensures Content(t, q) == Content(s, q)
    {
    }
    SamePagesBut(s, t, pid);
    assert Pages(s) - {pid} == Pages(s);
  }

  /** Once every page is mapped nothing is pending. */
  lemma AllMapped(s: Paging, pid: nat, n: nat)
    requires pid in s.tables && n == |s.tables[pid]| && Inv(s, Some(Page(pid, n)))
    ensures Inv(s, None)
  {
    assert forall q: Page | HasPage(s.tables, q) :: !Pending(Some(Page(pid, n)), q);
  }

  /** Frames of the present pages among the first `n` of a table. */
  ghost function FramesBelow(table: seq<Entry>, n: nat): set<nat>
    requires n <= |table|
  {
    set vp | 0 <= vp < n && table[vp].present :: table[vp].frame
  }

  lemma FramesBelowNext(table: seq<Entry>, n: nat)
    requires n < |table|
    ensures FramesBelow(table, n + 1) == FramesBelow(table, n) + (if table[n].present then {table[n].frame} else {})
  {
  }

  /** The frames of a process's present pages are the frames it owns. */
  lemma FramesOfProcess(s: Paging, pid: nat, n: nat)
    requires Held(s) && pid in s.tables && n <= |s.tables[pid]|
    requires forall vp | n <= vp < |s.tables[pid]| :: !s.tables[pid][vp].present
    ensures FramesBelow(s.tables[pid], n) == set f | f in s.owners && s.owners[f] == pid
  {
    forall f | f in s.owners && s.owners[f] == pid
      ensures f in FramesBelow(s.tables[pid], n)
    {
      assert Holds(s, f, s.holder[f]);
    }
    forall f | f in FramesBelow(s.tables[pid], n)
      ensures f in s.owners && s.owners[f] == pid
    {
      var vp :| 0 <= vp < n && s.tables[pid][vp].present && s.tables[pid][vp].frame == f;
      assert Resident(s.tables, Page(pid, vp));
      assert Holds(s, f, s.holder[f]);
    }
  }

  lemma ReleaseKeepsInv(s: Paging, pend: Option<Page>, pid: nat)
    requires Inv(s, pend) && (pend.Some? ==> pend.value.pid == pid)
    ensures Inv(Release(s, pid), None)
  {
    hide Swapped;
    ReleaseSwapped(s, pend, pid);
    var t := Release(s, pid);
    forall q: Page
      ensures Resident(t.tables, q) == (Resident(s.tables, q) && q.pid != pid)
    {
    }
    forall g | g in t.holder
      ensures Holds(t, g, t.holder[g])
    {
      assert Holds(s, g, s.holder[g]);
    }
    forall q: Page | Resident(t.tables, q)
      ensures t.tables[q.pid][q.vp].frame in t.holder && t.holder[t.tables[q.pid][q.vp].frame] == q
    {
      assert Resident(s.tables, q);
      assert Holds(s, s.tables[q.pid][q.vp].frame, q);
    }
  }

  lemma ReleaseSwapped(s: Paging, pend: Option<Page>, pid: nat)
    requires Swapped(s, pend) && (pend.Some? ==> pend.value.pid == pid)
    ensures Swapped(Release(s, pid), None)
  {
    var t := Release(s, pid);
    forall q: Page
      ensures HasPage(t.tables, q) == (HasPage(s.tables, q) && q.pid != pid)
      ensures Resident(t.tables, q) == (Resident(s.tables, q) && q.pid != pid)
    {
    }
  }

  /** Giving up a process changes nothing for the others. */
  lemma ReleaseSparesOthers(s: Paging, pid: nat)
    ensures Pages(Release(s, pid)) == Pages(s) - {pid}
  {
    var t := Release(s, pid);
    forall q: Page | HasPage(s.tables, q) && q.pid != pid
      ensures Content(t, q) == Content(s, q)
    {
    }
    SamePagesBut(s, t, pid);
    assert Pages(t) - {pid} == Pages(t);
  }

  // ---------------------------------------------------------------- accesses

  /** The same pages exist and the same ones are present. */
  ghost predicate SameResidency(tables: map<nat, seq<Entry>>, tables': map<nat, seq<Entry>>) {
    && tables'.Keys == tables.Keys
    && (forall pid | pid in tables :: |tables'[pid]| == |tables[pid]|)
    && (forall q: Page :: Resident(tables', q) == Resident(tables, q))
  }

  /** A present page whose status bits are set and whose frame holds `b`. */
  ghost function Access(s: Paging, p: Page, e: Entry, b: Block): Paging
    requires Resident(s.tables, p) && s.tables[p.pid][p.vp].frame < |s.memory|
  {
    s.(tables := SetEntry(s.tables, p, e), memory := s.memory[s.tables[p.pid][p.vp].frame := b])
  }

  lemma AccessKeepsInv(s: Paging, p: Page, e: Entry, b: Block)
    requires Inv(s, None) && Resident(s.tables, p) && s.tables[p.pid][p.vp].frame < |s.memory|
    requires e.present && e.frame == s.tables[p.pid][p.vp].frame
    ensures Inv(Access(s, p, e, b), None)
    ensures SameResidency(s.tables, Access(s, p, e, b).tables)
  {
    var t := Access(s, p, e, b);
    forall q: Page
      ensures HasPage(t.tables, q) == HasPage(s.tables, q) && Resident(t.tables, q) == Resident(s.tables, q)
      ensures Resident(t.tables, q) ==> t.tables[q.pid][q.vp].frame == s.tables[q.pid][q.vp].frame
    {
    }
    forall g | g in t.holder
      ensures Holds(t, g, t.holder[g])
    {
      assert Holds(s, g, s.holder[g]);
    }
  }

  /** An access to one page leaves the content of every other page alone. */
  lemma AccessIsLocal(s: Paging, p: Page, e: Entry, b: Block)
    requires Inv(s, None) && Resident(s.tables, p) && s.tables[p.pid][p.vp].frame < |s.memory|
    requires e.present && e.frame == s.tables[p.pid][p.vp].frame
    ensures Pages(Access(s, p, e, b)) == Pages(s)[p.pid := Pages(s)[p.pid][p.vp := b]]
  {
    hide Inv, Content, Access;
    var t := Access(s, p, e, b);
    AccessShape(s, p, e, b);
    forall q: Page | HasPage(s.tables, q)
      ensures Content(t, q) == if q == p then b else Content(s, q)
    {
      AccessContent(s, p, e, b, q);
    }
    SamePagesBut(s, t, p.pid);
    forall vp | 0 <= vp < |s.tables[p.pid]|
      ensures Content(t, Page(p.pid, vp)) == Pages(s)[p.pid][p.vp := b][vp]
    {
      assert HasPage(s.tables, Page(p.pid, vp));
    }
    assert PagesOf(t, p.pid) == Pages(s)[p.pid][p.vp := b];
    SplitMap(Pages(t), Pages(s), p.pid);
  }

  lemma AccessShape(s: Paging, p: Page, e: Entry, b: Block)
    requires Resident(s.tables, p) && s.tables[p.pid][p.vp].frame < |s.memory|
    requires e.frame == s.tables[p.pid][p.vp].frame
    ensures var t := Access(s, p, e, b);
            t.tables.Keys == s.tables.Keys && forall pid | pid in s.tables :: |t.tables[pid]| == |s.tables[pid]|
  {
  }

  lemma AccessContent(s: Paging, p: Page, e: Entry, b: Block, q: Page)
    requires Inv(s, None) && Resident(s.tables, p) && s.tables[p.pid][p.vp].frame < |s.memory|
    requires e.present && e.frame == s.tables[p.pid][p.vp].frame && HasPage(s.tables, q)
    ensures Content(Access(s, p, e, b), q) == if q == p then b else Content(s, q)
  {
    if Resident(s.tables, q) && q != p {
      assert s.holder[s.tables[q.pid][q.vp].frame] == q;
      assert s.holder[e.frame] == p;
    }
  }

  lemma SplitMap(m: map<nat, seq<Block>>, n: map<nat, seq<Block>>, k: nat)
    requires m - {k} == n - {k} && k in m
    ensures m == n[k := m[k]]
  {
    forall x
      ensures x in m <==> x in n[k := m[k]]
      ensures x in m ==> m[x] == n[k := m[k]][x]
    {
      if x != k {
        assert x in m <==> x in m - {k};
        assert x in n <==> x in n - {k};
        if x in m {
          assert (m - {k})[x] == (n - {k})[x];
        }
      }
    }
  }

  // ---------------------------------------------------------------- which pages are present

  /** The pages are those of `tables`, and besides `gone` and `come` the same ones are present. */
  ghost predicate Moved(tables: map<nat, seq<Entry>>, tables': map<nat, seq<Entry>>, gone: Page, come: Page) {
    && (forall q: Page :: HasPage(tables', q) == HasPage(tables, q))
    && Resident(tables', come)
    && forall q: Page | q != gone && q != come :: Resident(tables', q) == Resident(tables, q)
  }

  lemma EvictResidency(s: Paging, f: nat)
    requires f in s.holder && HasPage(s.tables, s.holder[f]) && f < |s.memory|
    ensures var t := Evict(s, f);
            && t.tables.Keys == s.tables.Keys
            && (forall pid | pid in s.tables :: |t.tables[pid]| == |s.tables[pid]|)
            && (forall q: Page :: HasPage(t.tables, q) == HasPage(s.tables, q))
            && (forall q: Page :: Resident(t.tables, q) == (Resident(s.tables, q) && q != s.holder[f]))
  {
    var t := Evict(s, f);
    forall q: Page
      ensures HasPage(t.tables, q) == HasPage(s.tables, q)
      ensures Resident(t.tables, q) == (Resident(s.tables, q) && q != s.holder[f])
    {
    }
  }

  lemma LoadResidency(s: Paging, p: Page, f: nat, b: Block)
    requires HasPage(s.tables, p) && f < |s.memory|
    ensures var t := Load(s, p, f, b);
            && t.tables.Keys == s.tables.Keys
            && (forall pid | pid in s.tables :: |t.tables[pid]| == |s.tables[pid]|)
            && (forall q: Page :: HasPage(t.tables, q) == HasPage(s.tables, q))
            && (forall q: Page :: Resident(t.tables, q) == (Resident(s.tables, q) || q == p))
  {
    var t := Load(s, p, f, b);
    forall q: Page
      ensures HasPage(t.tables, q) == HasPage(s.tables, q)
      ensures Resident(t.tables, q) == (Resident(s.tables, q) || q == p)
    {
    }
  }
}
