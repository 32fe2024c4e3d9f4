/** How a file's bytes are laid out over its list of disk blocks. */
module BlockStorage {
  import opened Core
  import opened FileSystemSpec
  import opened Descriptors

  datatype NodeKind = File | Directory

  /** An inode together with the entries of a directory. */
  datatype Node = Node(
    id: nat,
    kind: NodeKind,
    size: nat,
    blocks: seq<nat>,
    parent: Option<nat>,
    created: nat,
    modified: nat,
    children: map<string, nat>)

  type Disk = seq<seq<byte>>

  predicate IsZero(s: seq<byte>) {
    forall i | 0 <= i < |s| :: s[i] == 0
  }

  /** The byte at offset `r` of the block in slot `q`; 0 past the last block. */
  function At(disk: Disk, blocks: seq<nat>, q: nat, r: nat): byte {
    if q < |blocks| && blocks[q] < |disk| && r < |disk[blocks[q]]| then disk[blocks[q]][r] else 0
  }

  /** Byte `k` of a file, found by division. */
  function Cell(bs: pos, disk: Disk, blocks: seq<nat>, k: nat): byte {
    At(disk, blocks, k / bs, k % bs)
  }

  /** The first `size` bytes of a file. */
  function Bytes(bs: pos, disk: Disk, blocks: seq<nat>, size: nat): (r: seq<byte>)
    ensures |r| == size
    ensures forall k | 0 <= k < size :: r[k] == Cell(bs, disk, blocks, k)
  {
    seq(size, k requires 0 <= k => Cell(bs, disk, blocks, k))
  }

  /** The disk after `chunk` was copied into block `b` from `offset` on. */
  function PutChunk(disk: Disk, b: nat, offset: nat, chunk: seq<byte>): Disk
    requires b < |disk| && offset + |chunk| <= |disk[b]|
  {
    disk[b := disk[b][..offset] + chunk + disk[b][offset + |chunk|..]]
  }

  // ---------------------------------------------------------------- invariants of the store

  /** The disk has one block per bitmap entry and free blocks are all zero. */
  ghost predicate Shape(bs: pos, disk: Disk, bitmap: seq<bool>) {
    && |disk| == |bitmap|
    && (forall b | 0 <= b < |disk| :: |disk[b]| == bs)
    && (forall b | 0 <= b < |disk| && bitmap[b] :: IsZero(disk[b]))
  }

  /** `owner` is the inverse of all block lists: allocated blocks are their disjoint union. */
  ghost predicate Owned(bitmap: seq<bool>, nodes: map<nat, Node>, owner: map<nat, (nat, nat)>) {
    && (forall b: nat :: b in owner <==> b < |bitmap| && !bitmap[b])
    && (forall b | b in owner :: OwnedBy(nodes, b, owner[b].0, owner[b].1))
    && (forall id, i | id in nodes && 0 <= i < |nodes[id].blocks| ::
          nodes[id].blocks[i] in owner && owner[nodes[id].blocks[i]] == (id, i))
  }

  ghost predicate OwnedBy(nodes: map<nat, Node>, b: nat, id: nat, i: nat) {
    id in nodes && i < |nodes[id].blocks| && nodes[id].blocks[i] == b
  }

  /** A block is allocated exactly when it stands in a block list, and it stands in one place only. */
  lemma BlocksAreDisjointUnion(bitmap: seq<bool>, nodes: map<nat, Node>, owner: map<nat, (nat, nat)>)
    requires Owned(bitmap, nodes, owner)
    ensures forall b: nat :: b < |bitmap| && !bitmap[b] <==> exists id: nat, i: nat :: OwnedBy(nodes, b, id, i)
    ensures forall b: nat, id: nat, i: nat, id': nat, i': nat
              {:trigger OwnedBy(nodes, b, id, i), OwnedBy(nodes, b, id', i')} |
              OwnedBy(nodes, b, id, i) && OwnedBy(nodes, b, id', i') :: id == id' && i == i'
  {
  }

  /** Bytes past the end of a file are zero. */
  ghost predicate Tails(bs: pos, disk: Disk, nodes: map<nat, Node>) {
    forall id, k: nat {:trigger Cell(bs, disk, nodes[id].blocks, k)} |
      id in nodes && nodes[id].kind.File? && nodes[id].size <= k ::
      Cell(bs, disk, nodes[id].blocks, k) == 0
  }

  /** Only files have blocks, only directories have entries and their size counts them. */
  ghost predicate Kinds(nodes: map<nat, Node>) {
    forall id | id in nodes ::
      && nodes[id].id == id
      && (nodes[id].kind.Directory? ==> nodes[id].blocks == [] && nodes[id].size == |nodes[id].children|)
      && (nodes[id].kind.File? ==> nodes[id].children == map[])
  }

  /** The block list still denotes the same block contents. */
  ghost predicate SameBlocks(disk: Disk, disk': Disk, blocks: seq<nat>) {
    && |disk| == |disk'|
    && forall i | 0 <= i < |blocks| && blocks[i] < |disk| :: disk'[blocks[i]] == disk[blocks[i]]
  }

  // ---------------------------------------------------------------- arithmetic

  lemma Gap(a: nat, b: nat, bs: pos)
    requires a < b
    ensures a * bs + bs <= b * bs
  {
    assert b * bs == a * bs + bs + (b - a - 1) * bs;
  }

  lemma Quotient(k: nat, bs: pos)
    ensures k == k / bs * bs + k % bs && 0 <= k % bs < bs
  {
  }

  /** Bytes in one slot are as far apart as their offsets; a chunk within a slot misses the others. */
  lemma SameSlotOrApart(bs: pos, k: nat, at: nat, n: nat)
    requires at % bs + n <= bs
    ensures k / bs == at / bs ==> k - at == k % bs - at % bs
    ensures k / bs != at / bs ==> k < at || at + n <= k
  {
    Quotient(k, bs);
    Quotient(at, bs);
    if k / bs < at / bs {
      Gap(k / bs, at / bs, bs);
    } else if at / bs < k / bs {
      Gap(at / bs, k / bs, bs);
    }
  }

  /** Byte `k` lies in slot `k / bs`, so a block list of n slots covers exactly n * bs bytes. */
  lemma SlotBound(bs: pos, k: nat, n: nat)
    ensures k < n * bs <==> k / bs < n
  {
    Quotient(k, bs);
    if k / bs < n {
      Gap(k / bs, n, bs);
    } else {
      MoreBlocks(n, k / bs, bs);
    }
  }

  lemma MoreBlocks(m: nat, n: nat, bs: pos)
    requires m <= n
    ensures m * bs <= n * bs
  {
  }

  // ---------------------------------------------------------------- effect of disk updates on one file

  lemma GrowCell(bs: pos, disk: Disk, blocks: seq<nat>, b: nat, k: nat)
    requires b < |disk| && IsZero(disk[b])
    ensures Cell(bs, disk, blocks + [b], k) == Cell(bs, disk, blocks, k)
  {
  }

  lemma SameCells(bs: pos, disk: Disk, disk': Disk, blocks: seq<nat>, k: nat)
    requires SameBlocks(disk, disk', blocks)
    ensures Cell(bs, disk', blocks, k) == Cell(bs, disk, blocks, k)
  {
  }

  lemma SameBytes(bs: pos, disk: Disk, disk': Disk, blocks: seq<nat>, size: nat)
    requires SameBlocks(disk, disk', blocks)
    ensures Bytes(bs, disk', blocks, size) == Bytes(bs, disk, blocks, size)
  {
  }

  lemma ChunkAt(disk: Disk, blocks: seq<nat>, slot: nat, o: nat, chunk: seq<byte>, q: nat, r: nat, at: nat, k: nat)
    requires slot < |blocks| && (q < |blocks| && blocks[q] == blocks[slot] ==> q == slot)
    requires blocks[slot] < |disk| && o + |chunk| <= |disk[blocks[slot]]|
    requires if q == slot then k - at == r - o else k < at || at + |chunk| <= k
    ensures At(PutChunk(disk, blocks[slot], o, chunk), blocks, q, r) ==
            if at <= k < at + |chunk| then chunk[k - at] else At(disk, blocks, q, r)
  {
  }

  /** Copying a chunk changes exactly the bytes it is laid over. */
  lemma ChunkCell(bs: pos, disk: Disk, blocks: seq<nat>, at: nat, slot: nat, o: nat, chunk: seq<byte>, k: nat)
    requires slot == at / bs && o == at % bs
    requires slot < |blocks| && blocks[slot] < |disk| && |disk[blocks[slot]]| == bs
    requires forall i | 0 <= i < |blocks| && blocks[i] == blocks[slot] :: i == slot
    requires o + |chunk| <= bs
    ensures Cell(bs, PutChunk(disk, blocks[slot], o, chunk), blocks, k) ==
            if at <= k < at + |chunk| then chunk[k - at] else Cell(bs, disk, blocks, k)
  {
    var q: nat, r: nat := k / bs, k % bs;
    SameSlotOrApart(bs, k, at, |chunk|);
    ChunkAt(disk, blocks, slot, o, chunk, q, r, at, k);
  }

  // ---------------------------------------------------------------- abstraction

  ghost function DirsOf(nodes: map<nat, Node>): Dirs {
    map id | id in nodes && nodes[id].kind.Directory? :: nodes[id].children
  }

  ghost function FilesOf(bs: pos, disk: Disk, nodes: map<nat, Node>): map<nat, FileData> {
    map id | id in nodes && nodes[id].kind.File? ::
      FileData(Bytes(bs, disk, nodes[id].blocks, nodes[id].size), |nodes[id].blocks|)
  }

  ghost function ParentsOf(nodes: map<nat, Node>): map<nat, Option<nat>> {
    map id | id in nodes :: nodes[id].parent
  }

  ghost function TimesOf(nodes: map<nat, Node>): map<nat, Times> {
    map id | id in nodes :: Times(nodes[id].created, nodes[id].modified)
  }

  /** The state that callers see. */
  ghost function View(bs: pos, total: nat, free: nat, disk: Disk, nodes: map<nat, Node>,
                      fds: map<int, OpenFile>, nextFd: nat, nextId: nat, tick: nat): FsState
  {
    FsState(bs, total, free, DirsOf(nodes), FilesOf(bs, disk, nodes), ParentsOf(nodes), TimesOf(nodes),
            fds, nextFd, nextId, tick)
  }

  lemma SeenFile(s: FsState, bs: pos, disk: Disk, nodes: map<nat, Node>, id: nat)
    requires id in nodes && nodes[id].kind.File? && s.files == FilesOf(bs, disk, nodes) && s.times == TimesOf(nodes)
    ensures id in s.files && id in s.times
    ensures s.files[id].held == |nodes[id].blocks| && |s.files[id].bytes| == nodes[id].size
  {
  }

  lemma SeenDirectory(bs: pos, total: nat, free: nat, disk: Disk, nodes: map<nat, Node>, id: nat,
                      fds: map<int, OpenFile>, nextFd: nat, nextId: nat, tick: nat)
    requires id in nodes && nodes[id].kind.Directory?
    ensures var s := View(bs, total, free, disk, nodes, fds, nextFd, nextId, tick); id in s.dirs && id in s.times
  {
  }

  lemma SeenNode(s: FsState, bs: pos, disk: Disk, nodes: map<nat, Node>, id: nat)
    requires id in nodes && s.dirs == DirsOf(nodes) && id !in s.dirs
    requires s.files == FilesOf(bs, disk, nodes) && s.times == TimesOf(nodes) && s.blockSize == bs && SpaceInv(s)
    ensures nodes[id].kind.File? && nodes[id].size <= |nodes[id].blocks| * bs
    ensures id in s.files && id in s.times
    ensures s.files[id].held == |nodes[id].blocks|
    ensures s.files[id].bytes == Bytes(bs, disk, nodes[id].blocks, nodes[id].size)
  {
    assert id in s.files && Fits(s.files[id], s.blockSize);
  }

  lemma FileNodeAfter(nodes: map<nat, Node>, id: nat, n: Node)
    requires id in nodes && nodes[id].kind.File? && n.kind.File? && n.parent == nodes[id].parent
    ensures DirsOf(nodes[id := n]) == DirsOf(nodes)
    ensures ParentsOf(nodes[id := n]) == ParentsOf(nodes)
    ensures TimesOf(nodes[id := n]) == TimesOf(nodes)[id := Times(n.created, n.modified)]
  {
  }

  /** Updating one file leaves the bytes of all others alone. */
  lemma FilesAfter(bs: pos, disk: Disk, nodes: map<nat, Node>, disk': Disk, nodes': map<nat, Node>, id: nat)
    requires id in nodes && nodes[id].kind.File? && id in nodes' && nodes'[id].kind.File?
    requires nodes' == nodes[id := nodes'[id]]
    requires forall o | o in nodes && o != id :: SameBlocks(disk, disk', nodes[o].blocks)
    ensures FilesOf(bs, disk', nodes') ==
            FilesOf(bs, disk, nodes)[id := FileData(Bytes(bs, disk', nodes'[id].blocks, nodes'[id].size),
                                                    |nodes'[id].blocks|)]
  {
    forall o | o in nodes && nodes[o].kind.File? && o != id
      ensures Bytes(bs, disk', nodes[o].blocks, nodes[o].size) == Bytes(bs, disk, nodes[o].blocks, nodes[o].size)
    {
      SameBytes(bs, disk, disk', nodes[o].blocks, nodes[o].size);
    }
  }

  // ---------------------------------------------------------------- steps on the store

  /** All invariants that connect the disk, the bitmap and the inodes. */
  ghost predicate Store(bs: pos, disk: Disk, bitmap: seq<bool>, nodes: map<nat, Node>, owner: map<nat, (nat, nat)>) {
    Shape(bs, disk, bitmap) && Owned(bitmap, nodes, owner) && Tails(bs, disk, nodes) && Kinds(nodes)
  }

  function Zeros(n: nat): (r: seq<byte>)
    ensures |r| == n && IsZero(r)
  {
    seq(n, _ => 0)
  }

  /** `nodes` is `nodes0` with another block list for `id` that keeps the bytes of the blocks it has. */
  ghost predicate Resized(bs: pos, disk0: Disk, nodes0: map<nat, Node>, disk: Disk, nodes: map<nat, Node>, id: nat) {
    && id in nodes0 && id in nodes
    && nodes == nodes0[id := nodes0[id].(blocks := nodes[id].blocks)]
    && (forall o | o in nodes0 && o != id :: SameBlocks(disk0, disk, nodes0[o].blocks))
    && (forall k: nat {:trigger Cell(bs, disk, nodes[id].blocks, k)} ::
          Cell(bs, disk, nodes[id].blocks, k) ==
          if k / bs < |nodes[id].blocks| then Cell(bs, disk0, nodes0[id].blocks, k) else 0)
  }

  lemma GrowStep(bs: pos, disk: Disk, bitmap: seq<bool>, nodes: map<nat, Node>, owner: map<nat, (nat, nat)>,
                 id: nat, b: nat)
    requires Store(bs, disk, bitmap, nodes, owner)
    requires id in nodes && nodes[id].kind.File? && b < |bitmap| && bitmap[b]
    ensures Store(bs, disk, bitmap[b := false], nodes[id := nodes[id].(blocks := nodes[id].blocks + [b])],
                  owner[b := (id, |nodes[id].blocks|)])
    ensures forall k: nat {:trigger Cell(bs, disk, nodes[id].blocks + [b], k)} ::
              Cell(bs, disk, nodes[id].blocks + [b], k) == Cell(bs, disk, nodes[id].blocks, k)
  {
    forall k: nat
      ensures Cell(bs, disk, nodes[id].blocks + [b], k) == Cell(bs, disk, nodes[id].blocks, k)
    {
      GrowCell(bs, disk, nodes[id].blocks, b, k);
    }
    GrowOwned(bitmap, nodes, owner, id, b);
  }

  lemma GrowOwned(bitmap: seq<bool>, nodes: map<nat, Node>, owner: map<nat, (nat, nat)>, id: nat, b: nat)
    requires Owned(bitmap, nodes, owner) && id in nodes && b < |bitmap| && bitmap[b]
    ensures Owned(bitmap[b := false], nodes[id := nodes[id].(blocks := nodes[id].blocks + [b])],
                  owner[b := (id, |nodes[id].blocks|)])
  {
    var nodes' := nodes[id := nodes[id].(blocks := nodes[id].blocks + [b])];
    assert OwnedBy(nodes', b, id, |nodes[id].blocks|);
    forall x | x in owner
      ensures OwnedBy(nodes', x, owner[x].0, owner[x].1)
    {
      assert OwnedBy(nodes, x, owner[x].0, owner[x].1);
    }
  }

  lemma ShrinkOwned(bitmap: seq<bool>, nodes: map<nat, Node>, owner: map<nat, (nat, nat)>, id: nat)
    requires Owned(bitmap, nodes, owner) && id in nodes && nodes[id].blocks != []
    ensures var m := |nodes[id].blocks| - 1;
            var b := nodes[id].blocks[m];
            && b < |bitmap| && !bitmap[b]
            && Owned(bitmap[b := true], nodes[id := nodes[id].(blocks := nodes[id].blocks[..m])], owner - {b})
  {
    var m := |nodes[id].blocks| - 1;
    var b := nodes[id].blocks[m];
    assert owner[b] == (id, m);
    var nodes' := nodes[id := nodes[id].(blocks := nodes[id].blocks[..m])];
    forall x | x in owner && x != b
      ensures OwnedBy(nodes', x, owner[x].0, owner[x].1)
    {
      assert OwnedBy(nodes, x, owner[x].0, owner[x].1);
    }
  }

  lemma ShrinkCells(bs: pos, disk: Disk, bitmap: seq<bool>, nodes: map<nat, Node>, owner: map<nat, (nat, nat)>, id: nat)
    requires Shape(bs, disk, bitmap) && Owned(bitmap, nodes, owner) && id in nodes && nodes[id].blocks != []
    ensures var m := |nodes[id].blocks| - 1;
            var b := nodes[id].blocks[m];
            && b < |disk|
            && var disk' := disk[b := Zeros(|disk[b]|)];
            && (forall o | o in nodes && o != id :: SameBlocks(disk, disk', nodes[o].blocks))
            && (forall k: nat {:trigger Cell(bs, disk', nodes[id].blocks[..m], k)} ::
                  Cell(bs, disk', nodes[id].blocks[..m], k) ==
                  if k / bs < m then Cell(bs, disk, nodes[id].blocks, k) else 0)
  {
    var m := |nodes[id].blocks| - 1;
    var b := nodes[id].blocks[m];
    assert owner[b] == (id, m);
    var disk' := disk[b := Zeros(|disk[b]|)];
    forall o, i | o in nodes && 0 <= i < |nodes[o].blocks| && (o, i) != (id, m)
      ensures nodes[o].blocks[i] != b
    {
      assert owner[nodes[o].blocks[i]] == (o, i);
    }
    assert SameBlocks(disk, disk', nodes[id].blocks[..m]);
    forall k: nat
      ensures Cell(bs, disk', nodes[id].blocks[..m], k) ==
              if k / bs < m then Cell(bs, disk, nodes[id].blocks, k) else 0
    {
      PrefixCell(bs, disk, disk', nodes[id].blocks, m, k);
    }
  }

  lemma ShrinkTails(bs: pos, disk: Disk, disk': Disk, nodes: map<nat, Node>, id: nat, m: nat)
    requires Tails(bs, disk, nodes) && id in nodes && m <= |nodes[id].blocks|
    requires forall o | o in nodes && o != id :: SameBlocks(disk, disk', nodes[o].blocks)
    requires forall k: nat {:trigger Cell(bs, disk', nodes[id].blocks[..m], k)} ::
               Cell(bs, disk', nodes[id].blocks[..m], k) ==
               if k / bs < m then Cell(bs, disk, nodes[id].blocks, k) else 0
    ensures Tails(bs, disk', nodes[id := nodes[id].(blocks := nodes[id].blocks[..m])])
  {
    var nodes' := nodes[id := nodes[id].(blocks := nodes[id].blocks[..m])];
    forall o, k: nat | o in nodes' && nodes'[o].kind.File? && nodes'[o].size <= k
      ensures Cell(bs, disk', nodes'[o].blocks, k) == 0
    {
      assert Cell(bs, disk, nodes[o].blocks, k) == 0;
      if o != id {
        SameCells(bs, disk, disk', nodes[o].blocks, k);
      }
    }
  }

  lemma ShrinkStep(bs: pos, disk: Disk, bitmap: seq<bool>, nodes: map<nat, Node>, owner: map<nat, (nat, nat)>, id: nat)
    requires Store(bs, disk, bitmap, nodes, owner)
    requires id in nodes && nodes[id].kind.File? && nodes[id].blocks != []
    ensures var m := |nodes[id].blocks| - 1;
            var b := nodes[id].blocks[m];
            && b < |bitmap| && b < |disk| && !bitmap[b]
            && var disk' := disk[b := Zeros(|disk[b]|)];
            && Store(bs, disk', bitmap[b := true],
                     nodes[id := nodes[id].(blocks := nodes[id].blocks[..m])], owner - {b})
            && (forall o | o in nodes && o != id :: SameBlocks(disk, disk', nodes[o].blocks))
            && (forall k: nat {:trigger Cell(bs, disk', nodes[id].blocks[..m], k)} ::
                  Cell(bs, disk', nodes[id].blocks[..m], k) ==
                  if k / bs < m then Cell(bs, disk, nodes[id].blocks, k) else 0)
  {
    hide Owned, Tails, Cell, SameBlocks;
    ShrinkOwned(bitmap, nodes, owner, id);
    ShrinkCells(bs, disk, bitmap, nodes, owner, id);
    var m := |nodes[id].blocks| - 1;
    var b := nodes[id].blocks[m];
    ShrinkTails(bs, disk, disk[b := Zeros(|disk[b]|)], nodes, id, m);
  }

  lemma PrefixCell(bs: pos, disk: Disk, disk': Disk, blocks: seq<nat>, m: nat, k: nat)
    requires m <= |blocks| && SameBlocks(disk, disk', blocks[..m])
    ensures Cell(bs, disk', blocks[..m], k) == if k / bs < m then Cell(bs, disk, blocks, k) else 0
  {
  }

  lemma GrowResized(bs: pos, disk: Disk, nodes0: map<nat, Node>, bitmap: seq<bool>, nodes: map<nat, Node>,
                    owner: map<nat, (nat, nat)>, id: nat, b: nat)
    requires Store(bs, disk, bitmap, nodes, owner) && Resized(bs, disk, nodes0, disk, nodes, id)
    requires nodes[id].kind.File? && |nodes0[id].blocks| <= |nodes[id].blocks| && b < |bitmap| && bitmap[b]
    ensures var nodes' := nodes[id := nodes[id].(blocks := nodes[id].blocks + [b])];
            && Store(bs, disk, bitmap[b := false], nodes', owner[b := (id, |nodes[id].blocks|)])
            && Resized(bs, disk, nodes0, disk, nodes', id)
  {
    GrowStep(bs, disk, bitmap, nodes, owner, id, b);
    var nodes' := nodes[id := nodes[id].(blocks := nodes[id].blocks + [b])];
    forall k: nat
      ensures Cell(bs, disk, nodes'[id].blocks, k) ==
              if k / bs < |nodes'[id].blocks| then Cell(bs, disk, nodes0[id].blocks, k) else 0
    {
      assert Cell(bs, disk, nodes'[id].blocks, k) == Cell(bs, disk, nodes[id].blocks, k);
    }
  }

  lemma ShrinkResized(bs: pos, disk0: Disk, nodes0: map<nat, Node>, disk: Disk, bitmap: seq<bool>,
                      nodes: map<nat, Node>, owner: map<nat, (nat, nat)>, id: nat)
    requires Store(bs, disk, bitmap, nodes, owner) && Resized(bs, disk0, nodes0, disk, nodes, id)
    requires nodes[id].kind.File? && nodes[id].blocks != []
    ensures var m := |nodes[id].blocks| - 1;
            var b := nodes[id].blocks[m];
            && b < |bitmap| && b < |disk| && !bitmap[b]
            && var disk' := disk[b := Zeros(|disk[b]|)];
            && var nodes' := nodes[id := nodes[id].(blocks := nodes[id].blocks[..m])];
            && Store(bs, disk', bitmap[b := true], nodes', owner - {b})
            && Resized(bs, disk0, nodes0, disk', nodes', id)
  {
    ShrinkStep(bs, disk, bitmap, nodes, owner, id);
    var m := |nodes[id].blocks| - 1;
    var b := nodes[id].blocks[m];
    var disk' := disk[b := Zeros(|disk[b]|)];
    var nodes' := nodes[id := nodes[id].(blocks := nodes[id].blocks[..m])];
    forall o | o in nodes0 && o != id
      ensures SameBlocks(disk0, disk', nodes0[o].blocks)
    {
      assert SameBlocks(disk, disk', nodes[o].blocks) && SameBlocks(disk0, disk, nodes0[o].blocks);
    }
    forall k: nat
      ensures Cell(bs, disk', nodes'[id].blocks, k) ==
              if k / bs < |nodes'[id].blocks| then Cell(bs, disk0, nodes0[id].blocks, k) else 0
    {
      assert Cell(bs, disk', nodes[id].blocks[..m], k) == if k / bs < m then Cell(bs, disk, nodes[id].blocks, k) else 0;
    }
  }

  lemma EmptyStore(bs: pos, disk: Disk, bitmap: seq<bool>)
    requires |disk| == |bitmap| && false !in bitmap
    requires forall b | 0 <= b < |disk| :: disk[b] == Zeros(bs)
    ensures Store(bs, disk, bitmap, map[ROOT := Node(ROOT, Directory, 0, [], None, 0, 0, map[])], map[])
  {
    assert forall b | 0 <= b < |bitmap| :: bitmap[b] in bitmap;
  }

  lemma EmptyAbstraction(bs: pos, disk: Disk, nodes: map<nat, Node>)
    requires nodes == map[ROOT := Node(ROOT, Directory, 0, [], None, 0, 0, map[])]
    ensures DirsOf(nodes) == map[ROOT := map[]]
    ensures FilesOf(bs, disk, nodes) == map[]
    ensures ParentsOf(nodes) == map[ROOT := None]
    ensures TimesOf(nodes) == map[ROOT := Times(0, 0)]
  {
  }

  // ---------------------------------------------------------------- copying data into a file

  /** `disk` is `disk0` with `data` laid over file `id` from `offset` on. */
  ghost predicate Laid(bs: pos, disk0: Disk, disk: Disk, nodes: map<nat, Node>, id: nat, offset: nat, data: seq<byte>)
    requires id in nodes
  {
    && (forall o | o in nodes && o != id :: SameBlocks(disk0, disk, nodes[o].blocks))
    && (forall k: nat {:trigger Cell(bs, disk, nodes[id].blocks, k)} ::
          Cell(bs, disk, nodes[id].blocks, k) ==
          if offset <= k < offset + |data| then data[k - offset] else Cell(bs, disk0, nodes[id].blocks, k))
  }

  lemma CopyStep(bs: pos, disk: Disk, bitmap: seq<bool>, nodes: map<nat, Node>, owner: map<nat, (nat, nat)>,
                 id: nat, at: nat, slot: nat, o: nat, chunk: seq<byte>)
    requires Shape(bs, disk, bitmap) && Owned(bitmap, nodes, owner) && id in nodes
    requires slot == at / bs && o == at % bs && slot < |nodes[id].blocks| && o + |chunk| <= bs
    ensures nodes[id].blocks[slot] < |disk|
    ensures var disk' := PutChunk(disk, nodes[id].blocks[slot], o, chunk);
            Shape(bs, disk', bitmap) && Laid(bs, disk, disk', nodes, id, at, chunk)
  {
    var blocks := nodes[id].blocks;
    var b := blocks[slot];
    assert owner[b] == (id, slot);
    forall i | 0 <= i < |blocks| && blocks[i] == b
      ensures i == slot
    {
      assert owner[blocks[i]] == (id, i);
    }
    var disk' := PutChunk(disk, b, o, chunk);
    forall x | x in nodes && x != id
      ensures SameBlocks(disk, disk', nodes[x].blocks)
    {
      forall i | 0 <= i < |nodes[x].blocks|
        ensures nodes[x].blocks[i] != b
      {
        assert owner[nodes[x].blocks[i]] == (x, i);
      }
    }
    forall k: nat
      ensures Cell(bs, disk', blocks, k) == if at <= k < at + |chunk| then chunk[k - at] else Cell(bs, disk, blocks, k)
    {
      ChunkCell(bs, disk, blocks, at, slot, o, chunk, k);
    }
  }

  lemma LaidTwice(bs: pos, disk0: Disk, disk1: Disk, disk2: Disk, nodes: map<nat, Node>, id: nat,
                  offset: nat, d: seq<byte>, e: seq<byte>)
    requires id in nodes
    requires Laid(bs, disk0, disk1, nodes, id, offset, d) && Laid(bs, disk1, disk2, nodes, id, offset + |d|, e)
    ensures Laid(bs, disk0, disk2, nodes, id, offset, d + e)
  {
    forall o | o in nodes && o != id
      ensures SameBlocks(disk0, disk2, nodes[o].blocks)
    {
      assert SameBlocks(disk0, disk1, nodes[o].blocks) && SameBlocks(disk1, disk2, nodes[o].blocks);
    }
    forall k: nat
      ensures Cell(bs, disk2, nodes[id].blocks, k) ==
              if offset <= k < offset + |d + e| then (d + e)[k - offset] else Cell(bs, disk0, nodes[id].blocks, k)
    {
      assert Cell(bs, disk1, nodes[id].blocks, k) ==
             if offset <= k < offset + |d| then d[k - offset] else Cell(bs, disk0, nodes[id].blocks, k);
    }
  }

  /** With its size raised to cover the data, the file's bytes are the overwritten bytes. */
  lemma LaidBytes(bs: pos, disk0: Disk, disk: Disk, nodes: map<nat, Node>, id: nat, offset: nat, data: seq<byte>)
    requires id in nodes && Laid(bs, disk0, disk, nodes, id, offset, data)
    requires nodes[id].kind.File? && Tails(bs, disk0, nodes)
    ensures var n := nodes[id];
            Bytes(bs, disk, n.blocks, Max(n.size, offset + |data|)) ==
            Overwrite(Bytes(bs, disk0, n.blocks, n.size), offset, data)
  {
    var n := nodes[id];
    assert forall k: nat | n.size <= k :: Cell(bs, disk0, nodes[id].blocks, k) == 0;
  }

  lemma LaidTails(bs: pos, disk0: Disk, disk: Disk, nodes: map<nat, Node>, id: nat, offset: nat, data: seq<byte>,
                  nodes': map<nat, Node>)
    requires id in nodes && Laid(bs, disk0, disk, nodes, id, offset, data)
    requires nodes[id].kind.File? && Tails(bs, disk0, nodes)
    requires id in nodes' && nodes' == nodes[id := nodes'[id]]
    requires nodes'[id].blocks == nodes[id].blocks && nodes'[id].size == Max(nodes[id].size, offset + |data|)
    ensures Tails(bs, disk, nodes')
  {
    forall o, k: nat | o in nodes' && nodes'[o].kind.File? && nodes'[o].size <= k
      ensures Cell(bs, disk, nodes'[o].blocks, k) == 0
    {
      assert Cell(bs, disk0, nodes[o].blocks, k) == 0;
      if o != id {
        SameCells(bs, disk0, disk, nodes[o].blocks, k);
      }
    }
  }

  lemma TouchOwned(bitmap: seq<bool>, nodes: map<nat, Node>, owner: map<nat, (nat, nat)>, id: nat, n: Node)
    requires Owned(bitmap, nodes, owner) && id in nodes && n.blocks == nodes[id].blocks
    ensures Owned(bitmap, nodes[id := n], owner)
  {
    forall b | b in owner
      ensures OwnedBy(nodes[id := n], b, owner[b].0, owner[b].1)
    {
      assert OwnedBy(nodes, b, owner[b].0, owner[b].1);
    }
  }

  /** A block list that covers the file gives it the same bytes after resizing. */
  lemma ResizedBytes(bs: pos, disk0: Disk, nodes0: map<nat, Node>, disk: Disk, nodes: map<nat, Node>, id: nat, size: nat)
    requires Resized(bs, disk0, nodes0, disk, nodes, id) && size <= |nodes[id].blocks| * bs
    ensures Bytes(bs, disk, nodes[id].blocks, size) == Bytes(bs, disk0, nodes0[id].blocks, size)
  {
    forall k: nat | k < size
      ensures Cell(bs, disk, nodes[id].blocks, k) == Cell(bs, disk0, nodes0[id].blocks, k)
    {
      SlotBound(bs, k, |nodes[id].blocks|);
    }
  }

  // ---------------------------------------------------------------- what callers see of it

  /** Resizing without losing bytes changes only how many blocks the file holds. */
  lemma ResizeSeen(bs: pos, total: nat, free0: nat, free: nat, disk0: Disk, disk: Disk,
                   nodes0: map<nat, Node>, nodes: map<nat, Node>, id: nat,
                   fds: map<int, OpenFile>, nextFd: nat, nextId: nat, tick: nat)
    requires Resized(bs, disk0, nodes0, disk, nodes, id)
    requires nodes0[id].kind.File? && nodes0[id].size <= |nodes[id].blocks| * bs
    requires free + |nodes[id].blocks| == free0 + |nodes0[id].blocks|
    ensures View(bs, total, free, disk, nodes, fds, nextFd, nextId, tick) ==
            Resize(View(bs, total, free0, disk0, nodes0, fds, nextFd, nextId, tick), id, |nodes[id].blocks|)
  {
    FilesAfter(bs, disk0, nodes0, disk, nodes, id);
    ResizedBytes(bs, disk0, nodes0, disk, nodes, id, nodes0[id].size);
    FileNodeAfter(nodes0, id, nodes[id]);
  }

  /** Laying data over the blocks of a file is `Overwrite` on its bytes. */
  lemma FillSeen(bs: pos, total: nat, free: nat, disk0: Disk, disk: Disk, nodes: map<nat, Node>,
                 id: nat, offset: nat, data: seq<byte>, n: Node,
                 fds: map<int, OpenFile>, nextFd: nat, nextId: nat, tick: nat)
    requires id in nodes && nodes[id].kind.File?
    requires Tails(bs, disk0, nodes) && Laid(bs, disk0, disk, nodes, id, offset, data)
    requires n == nodes[id].(size := Max(nodes[id].size, offset + |data|), modified := tick + 1)
    ensures View(bs, total, free, disk, nodes[id := n], fds, nextFd, nextId, tick + 1) ==
            Lay(View(bs, total, free, disk0, nodes, fds, nextFd, nextId, tick), id, offset, data)
  {
    LaidBytes(bs, disk0, disk, nodes, id, offset, data);
    FilesAfter(bs, disk0, nodes, disk, nodes[id := n], id);
    FileNodeAfter(nodes, id, n);
  }

  lemma WriteStores(bs: pos, disk1: Disk, disk: Disk, bitmap: seq<bool>, nodes1: map<nat, Node>,
                    owner: map<nat, (nat, nat)>, id: nat, offset: nat, data: seq<byte>, n: Node)
    requires Store(bs, disk1, bitmap, nodes1, owner) && Shape(bs, disk, bitmap)
    requires id in nodes1 && nodes1[id].kind.File? && Laid(bs, disk1, disk, nodes1, id, offset, data)
    requires n == nodes1[id].(size := Max(nodes1[id].size, offset + |data|), modified := n.modified)
    ensures Store(bs, disk, bitmap, nodes1[id := n], owner)
  {
    LaidTails(bs, disk1, disk, nodes1, id, offset, data, nodes1[id := n]);
    TouchOwned(bitmap, nodes1, owner, id, n);
  }

  // ---------------------------------------------------------------- reading

  lemma ChunkRead(bs: pos, disk: Disk, blocks: seq<nat>, at: nat, slot: nat, o: nat, j: nat)
    requires slot == at / bs && o == at % bs && o + j < bs
    ensures Cell(bs, disk, blocks, at + j) == At(disk, blocks, slot, o + j)
  {
    SameSlotOrApart(bs, at + j, at, j + 1);
  }

  // ---------------------------------------------------------------- truncating, adding and dropping nodes

  /** A file that lost all its blocks and its size is empty. */
  lemma TruncateStores(bs: pos, disk: Disk, bitmap: seq<bool>, nodes: map<nat, Node>, owner: map<nat, (nat, nat)>,
                       id: nat, n: Node)
    requires Store(bs, disk, bitmap, nodes, owner) && id in nodes && nodes[id].kind.File? && nodes[id].blocks == []
    requires n == nodes[id].(size := 0, modified := n.modified)
    ensures Store(bs, disk, bitmap, nodes[id := n], owner)
  {
    TouchOwned(bitmap, nodes, owner, id, n);
    var nodes' := nodes[id := n];
    forall o, k: nat | o in nodes' && nodes'[o].kind.File? && nodes'[o].size <= k
      ensures Cell(bs, disk, nodes'[o].blocks, k) == 0
    {
      if o != id {
        assert Cell(bs, disk, nodes[o].blocks, k) == 0;
      }
    }
  }

  lemma TruncateSeen(bs: pos, total: nat, free0: nat, free: nat, disk0: Disk, disk: Disk,
                     nodes0: map<nat, Node>, nodes: map<nat, Node>, id: nat, n: Node,
                     fds: map<int, OpenFile>, nextFd: nat, nextId: nat, tick: nat)
    requires Resized(bs, disk0, nodes0, disk, nodes, id)
    requires nodes0[id].kind.File? && nodes[id].blocks == []
    requires free == free0 + |nodes0[id].blocks|
    requires n == nodes[id].(size := 0, modified := tick + 1)
    ensures View(bs, total, free, disk, nodes[id := n], fds, nextFd, nextId, tick + 1) ==
            Truncate(View(bs, total, free0, disk0, nodes0, fds, nextFd, nextId, tick), id)
  {
    FilesAfter(bs, disk0, nodes0, disk, nodes[id := n], id);
    FileNodeAfter(nodes0, id, n);
  }

  /** The nodes after a leaf was added to directory `p`. */
  function WithLeaf(nodes: map<nat, Node>, p: nat, name: string, kind: NodeKind, id: nat, tick: nat): map<nat, Node>
    requires p in nodes
  {
    var children := nodes[p].children[name := id];
    nodes[id := Node(id, kind, 0, [], Some(p), tick + 1, tick + 1, map[])]
         [p := nodes[p].(children := children, size := |children|, modified := tick + 2)]
  }

  lemma LeafOwned(bitmap: seq<bool>, nodes: map<nat, Node>, owner: map<nat, (nat, nat)>,
                  p: nat, name: string, kind: NodeKind, id: nat, tick: nat)
    requires Owned(bitmap, nodes, owner) && p in nodes && id !in nodes
    ensures Owned(bitmap, WithLeaf(nodes, p, name, kind, id, tick), owner)
  {
    var nodes' := WithLeaf(nodes, p, name, kind, id, tick);
    forall b | b in owner
      ensures OwnedBy(nodes', b, owner[b].0, owner[b].1)
    {
      assert OwnedBy(nodes, b, owner[b].0, owner[b].1);
    }
  }

  lemma LeafTails(bs: pos, disk: Disk, nodes: map<nat, Node>,
                  p: nat, name: string, kind: NodeKind, id: nat, tick: nat)
    requires Tails(bs, disk, nodes) && p in nodes && nodes[p].kind.Directory? && id !in nodes
    ensures Tails(bs, disk, WithLeaf(nodes, p, name, kind, id, tick))
  {
    var nodes' := WithLeaf(nodes, p, name, kind, id, tick);
    forall o, k: nat | o in nodes' && nodes'[o].kind.File? && nodes'[o].size <= k
      ensures Cell(bs, disk, nodes'[o].blocks, k) == 0
    {
      if o != id {
        assert Cell(bs, disk, nodes[o].blocks, k) == 0;
      }
    }
  }

  lemma LeafStores(bs: pos, disk: Disk, bitmap: seq<bool>, nodes: map<nat, Node>, owner: map<nat, (nat, nat)>,
                   p: nat, name: string, kind: NodeKind, id: nat, tick: nat)
    requires Store(bs, disk, bitmap, nodes, owner) && p in nodes && nodes[p].kind.Directory? && id !in nodes
    ensures Store(bs, disk, bitmap, WithLeaf(nodes, p, name, kind, id, tick), owner)
  {
    hide Shape, Owned, Tails;
    LeafOwned(bitmap, nodes, owner, p, name, kind, id, tick);
    LeafTails(bs, disk, nodes, p, name, kind, id, tick);
  }

  lemma LeafDirs(nodes: map<nat, Node>, p: nat, name: string, kind: NodeKind, id: nat, tick: nat)
    requires p in nodes && nodes[p].kind.Directory? && id !in nodes
    ensures DirsOf(WithLeaf(nodes, p, name, kind, id, tick)) ==
            (if kind.Directory? then DirsOf(nodes)[id := map[]] else DirsOf(nodes))[p := DirsOf(nodes)[p][name := id]]
  {
  }

  lemma LeafLinks(nodes: map<nat, Node>, p: nat, name: string, kind: NodeKind, id: nat, tick: nat)
    requires p in nodes && id !in nodes
    ensures var nodes' := WithLeaf(nodes, p, name, kind, id, tick);
            && ParentsOf(nodes') == ParentsOf(nodes)[id := Some(p)]
            && TimesOf(nodes') == TimesOf(nodes)[id := Times(tick + 1, tick + 1)]
                                                [p := TimesOf(nodes)[p].(modified := tick + 2)]
  {
  }

  lemma LeafFiles(bs: pos, disk: Disk, nodes: map<nat, Node>, p: nat, name: string, kind: NodeKind, id: nat, tick: nat)
    requires p in nodes && nodes[p].kind.Directory? && id !in nodes
    ensures FilesOf(bs, disk, WithLeaf(nodes, p, name, kind, id, tick)) ==
            if kind.Directory? then FilesOf(bs, disk, nodes) else FilesOf(bs, disk, nodes)[id := FileData([], 0)]
  {
    assert Bytes(bs, disk, [], 0) == [];
  }

  lemma LeafSeen(bs: pos, total: nat, free: nat, disk: Disk, nodes: map<nat, Node>,
                 p: nat, name: string, kind: NodeKind,
                 fds: map<int, OpenFile>, nextFd: nat, id: nat, tick: nat)
    requires p in nodes && nodes[p].kind.Directory? && id !in nodes
    ensures View(bs, total, free, disk, WithLeaf(nodes, p, name, kind, id, tick), fds, nextFd, id + 1, tick + 2) ==
            AddLeaf(View(bs, total, free, disk, nodes, fds, nextFd, id, tick), p, name, kind.Directory?)
  {
    hide WithLeaf, DirsOf, FilesOf, ParentsOf, TimesOf;
    LeafDirs(nodes, p, name, kind, id, tick);
    LeafLinks(nodes, p, name, kind, id, tick);
    LeafFiles(bs, disk, nodes, p, name, kind, id, tick);
  }

  /** The nodes after leaf `id`, called `name` in `p`, was taken out. */
  function WithoutLeaf(nodes: map<nat, Node>, p: nat, name: string, id: nat, tick: nat): map<nat, Node>
    requires p in nodes
  {
    var children := nodes[p].children - {name};
    (nodes - {id})[p := nodes[p].(children := children, size := |children|, modified := tick + 1)]
  }

  /** `disk` and `bitmap` after the first `n` of `blocks` were freed and zeroed. */
  ghost predicate Freed(bs: pos, disk0: Disk, bitmap0: seq<bool>, disk: Disk, bitmap: seq<bool>, blocks: seq<nat>) {
    && |disk| == |disk0| && |bitmap| == |bitmap0| == |disk|
    && forall b | 0 <= b < |disk| ::
         && bitmap[b] == (bitmap0[b] || b in blocks)
         && disk[b] == (if b in blocks then Zeros(bs) else disk0[b])
  }

  lemma DropOwned(bitmap0: seq<bool>, bitmap: seq<bool>, nodes: map<nat, Node>, owner: map<nat, (nat, nat)>,
                  p: nat, name: string, id: nat, tick: nat)
    requires Owned(bitmap0, nodes, owner) && p in nodes && id in nodes && id != p && |bitmap| == |bitmap0|
    requires forall b | 0 <= b < |bitmap| :: bitmap[b] == (bitmap0[b] || b in nodes[id].blocks)
    ensures Owned(bitmap, WithoutLeaf(nodes, p, name, id, tick), map b | b in owner && owner[b].0 != id :: owner[b])
  {
    var nodes' := WithoutLeaf(nodes, p, name, id, tick);
    forall b | b in owner
      ensures b in nodes[id].blocks <==> owner[b].0 == id
      ensures owner[b].0 != id ==> OwnedBy(nodes', b, owner[b].0, owner[b].1)
    {
      assert OwnedBy(nodes, b, owner[b].0, owner[b].1);
    }
  }

  lemma DropApart(bitmap: seq<bool>, nodes: map<nat, Node>, owner: map<nat, (nat, nat)>, o: nat, id: nat)
    requires Owned(bitmap, nodes, owner) && o in nodes && id in nodes && o != id
    ensures forall i | 0 <= i < |nodes[o].blocks| :: nodes[o].blocks[i] !in nodes[id].blocks
  {
    forall i | 0 <= i < |nodes[o].blocks|
      ensures nodes[o].blocks[i] !in nodes[id].blocks
    {
      assert owner[nodes[o].blocks[i]] == (o, i);
    }
  }

  lemma StoredBlocks(bs: pos, disk: Disk, bitmap: seq<bool>, nodes: map<nat, Node>, owner: map<nat, (nat, nat)>, id: nat)
    requires Store(bs, disk, bitmap, nodes, owner) && id in nodes
    ensures Shape(bs, disk, bitmap)
    ensures nodes[id].kind.Directory? ==> nodes[id].blocks == []
    ensures forall i | 0 <= i < |nodes[id].blocks| :: nodes[id].blocks[i] < |disk| && !bitmap[nodes[id].blocks[i]]
    ensures forall i, j | 0 <= i < j < |nodes[id].blocks| :: nodes[id].blocks[i] != nodes[id].blocks[j]
  {
    forall i, j | 0 <= i < j < |nodes[id].blocks|
      ensures nodes[id].blocks[i] != nodes[id].blocks[j]
    {
      assert owner[nodes[id].blocks[i]] == (id, i);
    }
  }

  lemma DropStores(bs: pos, disk0: Disk, bitmap0: seq<bool>, disk: Disk, bitmap: seq<bool>,
                   nodes: map<nat, Node>, owner: map<nat, (nat, nat)>, p: nat, name: string, id: nat, tick: nat)
    requires Store(bs, disk0, bitmap0, nodes, owner)
    requires p in nodes && nodes[p].kind.Directory? && id in nodes && id != p
    requires Freed(bs, disk0, bitmap0, disk, bitmap, nodes[id].blocks)
    ensures Store(bs, disk, bitmap, WithoutLeaf(nodes, p, name, id, tick),
                  map b | b in owner && owner[b].0 != id :: owner[b])
    ensures forall o | o in nodes && o != id :: SameBlocks(disk0, disk, nodes[o].blocks)
  {
    var nodes' := WithoutLeaf(nodes, p, name, id, tick);
    DropOwned(bitmap0, bitmap, nodes, owner, p, name, id, tick);
    forall o | o in nodes && o != id
      ensures SameBlocks(disk0, disk, nodes[o].blocks)
    {
      DropApart(bitmap0, nodes, owner, o, id);
    }
    forall o, k: nat | o in nodes' && nodes'[o].kind.File? && nodes'[o].size <= k
      ensures Cell(bs, disk, nodes'[o].blocks, k) == 0
    {
      assert Cell(bs, disk0, nodes[o].blocks, k) == 0;
      SameCells(bs, disk0, disk, nodes[o].blocks, k);
    }
  }

  lemma DropDirs(nodes: map<nat, Node>, p: nat, name: string, id: nat, tick: nat)
    requires p in nodes && nodes[p].kind.Directory? && id != p
    ensures DirsOf(WithoutLeaf(nodes, p, name, id, tick)) ==
            (DirsOf(nodes) - {id})[p := DirsOf(nodes)[p] - {name}]
  {
  }

  lemma DropLinks(nodes: map<nat, Node>, p: nat, name: string, id: nat, tick: nat)
    requires p in nodes && id != p
    ensures var nodes' := WithoutLeaf(nodes, p, name, id, tick);
            && ParentsOf(nodes') == ParentsOf(nodes) - {id}
            && TimesOf(nodes') == (TimesOf(nodes) - {id})[p := TimesOf(nodes)[p].(modified := tick + 1)]
  {
  }

  lemma DropFiles(bs: pos, disk0: Disk, disk: Disk, nodes: map<nat, Node>, p: nat, name: string, id: nat, tick: nat)
    requires p in nodes && nodes[p].kind.Directory? && id != p
    requires forall o | o in nodes && o != id :: SameBlocks(disk0, disk, nodes[o].blocks)
    ensures FilesOf(bs, disk, WithoutLeaf(nodes, p, name, id, tick)) == FilesOf(bs, disk0, nodes) - {id}
  {
    forall o | o in nodes && o != id
      ensures Bytes(bs, disk, nodes[o].blocks, nodes[o].size) == Bytes(bs, disk0, nodes[o].blocks, nodes[o].size)
    {
      SameBytes(bs, disk0, disk, nodes[o].blocks, nodes[o].size);
    }
  }

  lemma DropSeen(bs: pos, total: nat, free: nat, disk0: Disk, disk: Disk, nodes: map<nat, Node>,
                 p: nat, name: string, id: nat,
                 fds: map<int, OpenFile>, nextFd: nat, nextId: nat, tick: nat)
    requires p in nodes && nodes[p].kind.Directory? && id in nodes && id != p
    requires nodes[id].kind.Directory? ==> nodes[id].blocks == []
    requires forall o | o in nodes && o != id :: SameBlocks(disk0, disk, nodes[o].blocks)
    ensures View(bs, total, free + |nodes[id].blocks|, disk, WithoutLeaf(nodes, p, name, id, tick),
                 fds, nextFd, nextId, tick + 1) ==
            DropLeaf(View(bs, total, free, disk0, nodes, fds, nextFd, nextId, tick), p, name, id)
  {
    hide WithoutLeaf;
    DropDirs(nodes, p, name, id, tick);
    DropLinks(nodes, p, name, id, tick);
    DropFiles(bs, disk0, disk, nodes, p, name, id, tick);
  }
}
