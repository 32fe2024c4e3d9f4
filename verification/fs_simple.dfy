/** The inode file system over a bitmap-allocated disk; it refines `FileSystemSpec`. */
module SimpleFileSystem {
  import opened Core
  import opened PathNames
  import opened BlockAllocation
  import opened Descriptors
  import opened BlockStorage
  import S = FileSystemSpec
  import L = FileSystemLaws

  /** The copy loop of a read: block by block, each chunk within one block. */
  method CopyOut(bs: pos, disk: Disk, blocks: seq<nat>, offset: nat, n: nat, buffer: array<byte>)
    requires n <= buffer.Length && offset + n <= |blocks| * bs
    requires forall i | 0 <= i < |blocks| :: blocks[i] < |disk| && |disk[blocks[i]]| == bs
    modifies buffer
    ensures forall j | 0 <= j < n :: buffer[j] == Cell(bs, disk, blocks, offset + j)
    ensures forall j | n <= j < buffer.Length :: buffer[j] == old(buffer[j])
  {
    var read := 0;
    while read < n
      invariant 0 <= read <= n
      invariant forall j | 0 <= j < read :: buffer[j] == Cell(bs, disk, blocks, offset + j)
      invariant forall j | read <= j < buffer.Length :: buffer[j] == old(buffer[j])
    {
      var absolute := offset + read;
      SlotBound(bs, absolute, |blocks|);
      var blockSlot: nat, blockOffset: nat := absolute / bs, absolute % bs;
      var chunk := Min(bs - blockOffset, n - read);
      var source := disk[blocks[blockSlot]];
      for j := 0 to chunk
        invariant forall i | 0 <= i < read + j :: buffer[i] == Cell(bs, disk, blocks, offset + i)
        invariant forall i | read + j <= i < buffer.Length :: buffer[i] == old(buffer[i])
      {
        ChunkRead(bs, disk, blocks, absolute, blockSlot, blockOffset, j);
        buffer[read + j] := source[blockOffset + j];
      }
      read := read + chunk;
    }
  }

  class SimpleFS {
    const blockSize: pos
    const allocator: BlockAllocator
    const fdTable: FileDescriptorTable
    var disk: Disk
    var nodes: map<nat, Node>
    var nextInodeId: nat
    var tick: nat
    /** For each allocated block the inode and the slot that hold it. */
    ghost var owner: map<nat, (nat, nat)>

    ghost predicate Stored()
      reads this, allocator
    {
      allocator.Valid() && Store(blockSize, disk, allocator.freeBitmap, nodes, owner)
    }

    /** The state that callers see. */
    ghost function Abs(): S.FsState
      reads this, allocator, fdTable
    {
      View(blockSize, |allocator.freeBitmap|, allocator.freeCount, disk, nodes,
           fdTable.entries, fdTable.nextFd, nextInodeId, tick)
    }

    ghost predicate Valid()
      reads this, allocator, fdTable
    {
      Stored() && fdTable.Valid() && S.Inv(Abs())
    }

    /** An empty root directory over a zeroed disk; sizes below one are raised to one. */
    constructor (totalBlocks: nat, blockSizeArg: nat)
      ensures Valid() && fresh(allocator) && fresh(fdTable)
      ensures blockSize == Max(1, blockSizeArg)
      ensures Abs() == S.Initial(Max(1, blockSizeArg), Max(1, totalBlocks))
    {
      var bs: pos := Max(1, blockSizeArg);
      var total := Max(1, totalBlocks);
      blockSize := bs;
      disk := seq(total, _ => Zeros(bs));
      allocator := new BlockAllocator(total);
      fdTable := new FileDescriptorTable();
      nodes := map[S.ROOT := Node(S.ROOT, Directory, 0, [], None, 0, 0, map[])];
      nextInodeId := S.ROOT + 1;
      tick := 0;
      owner := map[];
      new;
      EmptyStore(blockSize, disk, allocator.freeBitmap);
      EmptyAbstraction(blockSize, disk, nodes);
      L.InitialIsConsistent(blockSize, total);
    }

    /** The walk over the directory tables computes `ResolvePath`. */
    method ResolvePath(path: string) returns (r: Result<nat>)
      ensures r == S.ResolvePath(DirsOf(nodes), path)
    {
      var parts := SplitPath(path);
      if parts.Failure? {
        return Failure(parts.error);
      }
      r := Follow(parts.value);
    }

    method Follow(tokens: seq<string>) returns (r: Result<nat>)
      ensures r == S.Walk(DirsOf(nodes), S.ROOT, tokens)
    {
      var current := S.ROOT;
      for i := 0 to |tokens|
        invariant S.Walk(DirsOf(nodes), current, tokens[i..]) == S.Walk(DirsOf(nodes), S.ROOT, tokens)
      {
        if current !in nodes || !nodes[current].kind.Directory? {
          return Failure(NotFound);
        }
        if tokens[i] !in nodes[current].children {
          return Failure(NotFound);
        }
        assert tokens[i..][1..] == tokens[i + 1..];
        current := nodes[current].children[tokens[i]];
      }
      return Success(current);
    }

    method ResolveParent(path: string) returns (r: Result<(nat, string)>)
      ensures r == S.ResolveParent(DirsOf(nodes), path)
    {
      var parts := SplitPath(path);
      if parts.Failure? {
        return Failure(parts.error);
      }
      var tokens := parts.value;
      if tokens == [] {
        return Failure(InvalidArgument);
      }
      var parent := Follow(tokens[..|tokens| - 1]);
      if parent.Failure? {
        return Failure(parent.error);
      }
      return Success((parent.value, tokens[|tokens| - 1]));
    }

    /** Gives file `id` the blocks for `requiredBytes`, or all that are left and an error. */
    method EnsureFileBlocks(id: nat, requiredBytes: nat) returns (r: Result<()>)
      requires Stored() && id in nodes && nodes[id].kind.File?
      modifies this`disk, this`nodes, this`owner, allocator
      ensures Stored()
      ensures Resized(blockSize, old(disk), old(nodes), disk, nodes, id)
      ensures |allocator.freeBitmap| == |old(allocator.freeBitmap)|
      ensures allocator.freeCount + |nodes[id].blocks| == old(allocator.freeCount) + |old(nodes)[id].blocks|
      ensures r.Success? <==>
              S.BlocksFor(requiredBytes, blockSize) <= |old(nodes)[id].blocks| + old(allocator.freeCount)
      ensures r.Success? ==> |nodes[id].blocks| == S.BlocksFor(requiredBytes, blockSize)
      ensures r.Failure? ==> r.error == OutOfMemory && allocator.freeCount == 0
      ensures r.Failure? ==> |old(nodes)[id].blocks| <= |nodes[id].blocks|
    {
      hide Store;
      var required := S.BlocksFor(requiredBytes, blockSize);
      while |nodes[id].blocks| < required
        invariant Stored() && Resized(blockSize, old(disk), old(nodes), disk, nodes, id)
        invariant |allocator.freeBitmap| == |old(allocator.freeBitmap)|
        invariant allocator.freeCount + |nodes[id].blocks| == old(allocator.freeCount) + |old(nodes)[id].blocks|
        invariant |old(nodes)[id].blocks| <= |nodes[id].blocks| <= Max(required, |old(nodes)[id].blocks|)
        invariant disk == old(disk)
      {
        ghost var bitmap := allocator.freeBitmap;
        var alloc := allocator.Allocate();
        if alloc.Failure? {
          return Failure(alloc.error);
        }
        GrowResized(blockSize, disk, old(nodes), bitmap, nodes, owner, id, alloc.value);
        owner := owner[alloc.value := (id, |nodes[id].blocks|)];
        nodes := nodes[id := nodes[id].(blocks := nodes[id].blocks + [alloc.value])];
      }
      while |nodes[id].blocks| > required
        invariant Stored() && Resized(blockSize, old(disk), old(nodes), disk, nodes, id)
        invariant |allocator.freeBitmap| == |old(allocator.freeBitmap)|
        invariant allocator.freeCount + |nodes[id].blocks| == old(allocator.freeCount) + |old(nodes)[id].blocks|
        invariant required <= |nodes[id].blocks|
      {
        var last := |nodes[id].blocks| - 1;
        var blockIndex := nodes[id].blocks[last];
        ShrinkResized(blockSize, old(disk), old(nodes), disk, allocator.freeBitmap, nodes, owner, id);
        var freed := allocator.Free(blockIndex);
        if freed.Failure? {
          assert false;
        }
        disk := disk[blockIndex := Zeros(|disk[blockIndex]|)];
        owner := owner - {blockIndex};
        nodes := nodes[id := nodes[id].(blocks := nodes[id].blocks[..last])];
      }
      return Success(());
    }

    /** The copy loop: block by block, each chunk within one block. */
    method CopyIn(id: nat, offset: nat, data: seq<byte>)
      requires Shape(blockSize, disk, allocator.freeBitmap) && Owned(allocator.freeBitmap, nodes, owner)
      requires id in nodes && offset + |data| <= |nodes[id].blocks| * blockSize
      modifies this`disk
      ensures Shape(blockSize, disk, allocator.freeBitmap)
      ensures Laid(blockSize, old(disk), disk, nodes, id, offset, data)
    {
      var written := 0;
      while written < |data|
        invariant 0 <= written <= |data|
        invariant Shape(blockSize, disk, allocator.freeBitmap)
        invariant Laid(blockSize, old(disk), disk, nodes, id, offset, data[..written])
      {
        var absolute := offset + written;
        SlotBound(blockSize, absolute, |nodes[id].blocks|);
        var blockSlot: nat, blockOffset: nat := absolute / blockSize, absolute % blockSize;
        var chunk := Min(blockSize - blockOffset, |data| - written);
        var piece := data[written..written + chunk];
        CopyStep(blockSize, disk, allocator.freeBitmap, nodes, owner, id, absolute, blockSlot, blockOffset, piece);
        ghost var disk1 := disk;
        disk := PutChunk(disk, nodes[id].blocks[blockSlot], blockOffset, piece);
        LaidTwice(blockSize, old(disk), disk1, disk, nodes, id, offset, data[..written], piece);
        assert data[..written] + piece == data[..written + chunk];
        written := written + chunk;
      }
      assert data[..written] == data;
    }

    /** Making room changes how many blocks the file holds and none of its bytes. */
    method MakeRoom(id: nat, bytes: nat) returns (r: Result<()>)
      requires Stored() && id in nodes && nodes[id].kind.File?
      requires nodes[id].size <= bytes && nodes[id].size <= |nodes[id].blocks| * blockSize
      modifies this`disk, this`nodes, this`owner, allocator
      ensures Stored() && id in nodes && nodes[id].kind.File? && nodes[id].size == old(nodes)[id].size
      ensures var most, need := |old(nodes)[id].blocks| + old(allocator.freeCount), S.BlocksFor(bytes, blockSize);
              && (r.Success? <==> need <= most)
              && (r.Failure? ==> r.error == OutOfMemory)
              && |nodes[id].blocks| == Min(need, most)
      ensures Abs() == S.Resize(old(Abs()), id, |nodes[id].blocks|)
    {
      r := EnsureFileBlocks(id, bytes);
      L.BlocksForCovers(bytes, blockSize);
      if r.Failure? {
        MoreBlocks(|old(nodes)[id].blocks|, |nodes[id].blocks|, blockSize);
      }
      ResizeSeen(blockSize, |allocator.freeBitmap|, old(allocator.freeCount), allocator.freeCount,
                 old(disk), disk, old(nodes), nodes, id, fdTable.entries, fdTable.nextFd, nextInodeId, tick);
    }

    /** Copies the data into blocks that are already there and raises the size to cover it. */
    method Fill(id: nat, offset: nat, data: seq<byte>)
      requires Stored() && id in nodes && nodes[id].kind.File?
      requires Max(nodes[id].size, offset + |data|) <= |nodes[id].blocks| * blockSize
      modifies this`disk, this`nodes, this`tick
      ensures Stored()
      ensures id in old(Abs()).files && id in old(Abs()).times
      ensures Abs() == S.Lay(old(Abs()), id, offset, data)
    {
      hide S.Lay, Laid, Shape, Owned, Tails, Kinds;
      SeenFile(Abs(), blockSize, disk, nodes, id);
      ghost var disk0 := disk;
      CopyIn(id, offset, data);
      var n := nodes[id].(size := Max(nodes[id].size, offset + |data|), modified := tick + 1);
      FillSeen(blockSize, |allocator.freeBitmap|, allocator.freeCount, disk0, disk, nodes, id, offset, data, n,
               fdTable.entries, fdTable.nextFd, nextInodeId, tick);
      WriteStores(blockSize, disk0, disk, allocator.freeBitmap, nodes, owner, id, offset, data, n);
      nodes, tick := nodes[id := n], tick + 1;
    }

    /** A write overwrites and extends the flat byte string, or runs out of blocks unseen. */
    method WriteToNode(id: nat, offset: nat, data: seq<byte>) returns (r: Result<nat>)
      requires Stored() && id in nodes && nodes[id].kind.File?
      requires nodes[id].size <= |nodes[id].blocks| * blockSize
      modifies this, allocator
      ensures Stored()
      ensures id in old(Abs()).files && id in old(Abs()).times
      ensures Abs() == S.WriteFile(old(Abs()), id, offset, data).0
      ensures r == S.WriteFile(old(Abs()), id, offset, data).1
    {
      hide Store, S.Resize, S.Lay;
      if data == [] {
        return Success(0);
      }
      ghost var s0 := Abs();
      SeenFile(s0, blockSize, disk, nodes, id);
      var endOffset := offset + |data|;
      var ensured := MakeRoom(id, Max(nodes[id].size, endOffset));
      L.WriteFileCases(s0, id, offset, data, |nodes[id].blocks|);
      if ensured.Failure? {
        return Failure(ensured.error);
      }
      L.BlocksForCovers(Max(nodes[id].size, endOffset), blockSize);
      Fill(id, offset, data);
      return Success(|data|);
    }

    /** Fills the front of the buffer with the bytes from `offset` on and leaves the rest of it alone. */
    method ReadFromNode(id: nat, offset: nat, buffer: array<byte>) returns (n: nat)
      requires Stored() && id in nodes && nodes[id].kind.File?
      requires nodes[id].size <= |nodes[id].blocks| * blockSize
      modifies buffer
      ensures n <= buffer.Length
      ensures buffer[..n] == S.Slice(Bytes(blockSize, disk, nodes[id].blocks, nodes[id].size), offset, buffer.Length)
      ensures forall j | n <= j < buffer.Length :: buffer[j] == old(buffer[j])
    {
      if buffer.Length == 0 || offset >= nodes[id].size {
        return 0;
      }
      n := Min(buffer.Length, nodes[id].size - offset);
      CopyOut(blockSize, disk, nodes[id].blocks, offset, n, buffer);
    }

    /** The tail of `Open`: truncate if asked to, then hand out a descriptor. */
    method OpenNode(id: nat, mode: OpenMode) returns (r: Result<int>)
      requires Stored() && fdTable.Valid() && id in nodes && nodes[id].kind.File?
      modifies this, allocator, fdTable
      ensures Stored() && fdTable.Valid()
      ensures id in old(Abs()).files && id in old(Abs()).times
      ensures Abs() == S.OpenFileById(old(Abs()), id, mode).0
      ensures r == S.OpenFileById(old(Abs()), id, mode).1
    {
      hide Store, S.Truncate;
      SeenFile(Abs(), blockSize, disk, nodes, id);
      if mode.truncate {
        TruncateNode(id);
        SeenFile(Abs(), blockSize, disk, nodes, id);
      }
      var state := OpenFile(id, if mode.append then nodes[id].size else 0, mode);
      var fd := fdTable.Open(state);
      return Success(fd);
    }

    method TruncateNode(id: nat)
      requires Stored() && id in nodes && nodes[id].kind.File?
      modifies this, allocator
      ensures Stored() && id in nodes && nodes[id].kind.File?
      ensures id in old(Abs()).files && id in old(Abs()).times
      ensures Abs() == S.Truncate(old(Abs()), id)
    {
      hide Store, S.Truncate, SameBlocks;
      SeenFile(Abs(), blockSize, disk, nodes, id);
      var resize := EnsureFileBlocks(id, 0);
      if resize.Failure? {
        assert false;
      }
      var n := nodes[id].(size := 0, modified := tick + 1);
      TruncateStores(blockSize, disk, allocator.freeBitmap, nodes, owner, id, n);
      TruncateSeen(blockSize, |allocator.freeBitmap|, old(allocator.freeCount), allocator.freeCount,
                   old(disk), disk, old(nodes), nodes, id, n, fdTable.entries, fdTable.nextFd, nextInodeId, tick);
      nodes, tick := nodes[id := n], tick + 1;
    }

    method AddNode(parentId: nat, name: string, kind: NodeKind) returns (newId: nat)
      requires Stored() && nextInodeId !in nodes && parentId in nodes && nodes[parentId].kind.Directory?
      modifies this
      ensures Stored() && newId == old(nextInodeId) && newId in nodes && nodes[newId].kind == kind
      ensures parentId in old(Abs()).dirs && parentId in old(Abs()).times
      ensures Abs() == S.AddLeaf(old(Abs()), parentId, name, kind.Directory?)
    {
      hide Store;
      newId := nextInodeId;
      LeafStores(blockSize, disk, allocator.freeBitmap, nodes, owner, parentId, name, kind, newId, tick);
      LeafSeen(blockSize, |allocator.freeBitmap|, allocator.freeCount, disk, nodes, parentId, name, kind,
               fdTable.entries, fdTable.nextFd, newId, tick);
      nodes := WithLeaf(nodes, parentId, name, kind, newId, tick);
      nextInodeId, tick := nextInodeId + 1, tick + 2;
    }

    /** The inode of a path, made on demand; a missing path whose parent exists is never taken. */
    method FindOrCreate(path: string, create: bool) returns (r: Result<nat>)
      requires Stored() && S.Tree(Abs())
      modifies this
      ensures Stored()
      ensures Abs() == S.FindOrCreate(old(Abs()), path, create).0
      ensures r == S.FindOrCreate(old(Abs()), path, create).1
      ensures r.Success? ==> r.value in nodes && (r.value in Abs().files <==> nodes[r.value].kind.File?)
    {
      assert nextInodeId !in Abs().parent;
      hide Store;
      var found := ResolvePath(path);
      if found.Success? {
        L.ResolvesToNode(Abs(), path);
        return found;
      }
      if !create {
        return found;
      }
      var parent := ResolveParent(path);
      if parent.Failure? {
        return Failure(parent.error);
      }
      var (parentId, name) := parent.value;
      if parentId !in nodes || !nodes[parentId].kind.Directory? {
        return Failure(NotFound);
      }
      L.ResolversAgree(DirsOf(nodes), path);
      if name in nodes[parentId].children {
        assert false;
      }
      var id := AddNode(parentId, name, File);
      return Success(id);
    }

    method Open(path: string, mode: OpenMode) returns (r: Result<int>)
      requires Valid()
      modifies this, allocator, fdTable
      ensures Valid()
      ensures Abs() == S.Open(old(Abs()), path, mode).0
      ensures r == S.Open(old(Abs()), path, mode).1
    {
      hide S.Inv, S.Tree, Store, View, S.FindOrCreate, S.OpenFileById;
      L.InvParts(Abs());
      L.OpenKeepsInv(Abs(), path, mode);
      L.FindOrCreateFails(Abs(), path, mode.create);
      if !mode.read && !mode.write {
        return Failure(InvalidArgument);
      }
      var found := FindOrCreate(path, mode.create);
      if found.Failure? {
        return Failure(found.error);
      }
      var id := found.value;
      if !nodes[id].kind.File? {
        return Failure(InvalidState);
      }
      r := OpenNode(id, mode);
    }

    /** Reads into the buffer from the descriptor's offset on and advances it. */
    method Read(fd: int, buffer: array<byte>) returns (r: Result<nat>)
      requires Valid()
      modifies fdTable, buffer
      ensures Valid()
      ensures var (t, data) := S.Read(old(Abs()), fd, buffer.Length);
              && Abs() == t
              && r == (if data.Success? then Success(|data.value|) else Failure(data.error))
              && (data.Success? ==> |data.value| <= buffer.Length && buffer[..|data.value|] == data.value)
              && var n := if data.Success? then |data.value| else 0;
                 forall j | n <= j < buffer.Length :: buffer[j] == old(buffer[j])
    {
      hide S.Inv, Store, S.Slice, Bytes;
      L.ReadKeepsInv(Abs(), fd, buffer.Length);
      var state := fdTable.Get(fd);
      if state.Failure? {
        return Failure(state.error);
      }
      if !state.value.mode.read {
        return Failure(PermissionDenied);
      }
      var id := state.value.inode;
      L.DescriptorDenotesFile(Abs(), fd);
      if id !in nodes {
        return Failure(NotFound);
      }
      SeenNode(Abs(), blockSize, disk, nodes, id);
      var n := ReadFromNode(id, state.value.offset, buffer);
      var stored := fdTable.Set(fd, state.value.(offset := state.value.offset + n));
      if stored.Failure? {
        assert false;
      }
      return Success(n);
    }

    /** Writes at the descriptor's offset, or at the end when appending, and advances it. */
    method Write(fd: int, data: seq<byte>) returns (r: Result<nat>)
      requires Valid()
      modifies this, allocator, fdTable
      ensures Valid()
      ensures Abs() == S.Write(old(Abs()), fd, data).0
      ensures r == S.Write(old(Abs()), fd, data).1
    {
      hide S.Inv, Store, S.WriteFile;
      L.WriteKeepsInv(Abs(), fd, data);
      var state := fdTable.Get(fd);
      if state.Failure? {
        return Failure(state.error);
      }
      if !state.value.mode.write {
        return Failure(PermissionDenied);
      }
      var id := state.value.inode;
      L.DescriptorDenotesFile(Abs(), fd);
      if id !in nodes {
        return Failure(NotFound);
      }
      SeenNode(Abs(), blockSize, disk, nodes, id);
      var offset := if state.value.mode.append then nodes[id].size else state.value.offset;
      L.WriteFileKeepsDescriptors(Abs(), id, offset, data);
      r := WriteToNode(id, offset, data);
      if r.Failure? {
        return r;
      }
      var stored := fdTable.Set(fd, OpenFile(id, offset + r.value, state.value.mode));
      if stored.Failure? {
        assert false;
      }
    }

    method Close(fd: int) returns (r: Result<()>)
      requires Valid()
      modifies fdTable
      ensures Valid()
      ensures Abs() == S.Close(old(Abs()), fd).0
      ensures r == S.Close(old(Abs()), fd).1
    {
      hide S.Inv, Store;
      L.CloseKeepsInv(Abs(), fd);
      r := fdTable.Close(fd);
    }

    method Mkdir(path: string) returns (r: Result<()>)
      requires Valid()
      modifies this
      ensures Valid()
      ensures Abs() == S.Mkdir(old(Abs()), path).0
      ensures r == S.Mkdir(old(Abs()), path).1
    {
      hide S.Inv, Store, S.AddLeaf;
      L.MkdirKeepsInv(Abs(), path);
      L.NextIdIsFresh(Abs());
      var parent := ResolveParent(path);
      if parent.Failure? {
        return Failure(parent.error);
      }
      var (parentId, name) := parent.value;
      if parentId !in nodes || !nodes[parentId].kind.Directory? {
        return Failure(NotFound);
      }
      if name in nodes[parentId].children {
        return Failure(AlreadyExists);
      }
      var _ := AddNode(parentId, name, Directory);
      return Success(());
    }

    /** Gives back and zeroes all listed blocks; none of the frees can fail. */
    method FreeBlocks(blocks: seq<nat>)
      requires allocator.Valid() && Shape(blockSize, disk, allocator.freeBitmap)
      requires forall i | 0 <= i < |blocks| :: blocks[i] < |disk| && !allocator.freeBitmap[blocks[i]]
      requires forall i, j | 0 <= i < j < |blocks| :: blocks[i] != blocks[j]
      modifies this`disk, allocator
      ensures allocator.Valid() && allocator.freeCount == old(allocator.freeCount) + |blocks|
      ensures Freed(blockSize, old(disk), old(allocator.freeBitmap), disk, allocator.freeBitmap, blocks)
    {
      for i := 0 to |blocks|
        invariant allocator.Valid() && allocator.freeCount == old(allocator.freeCount) + i
        invariant Freed(blockSize, old(disk), old(allocator.freeBitmap), disk, allocator.freeBitmap, blocks[..i])
      {
        var freed := allocator.Free(blocks[i]);
        if freed.Failure? {
          assert false;
        }
        disk := disk[blocks[i] := Zeros(|disk[blocks[i]]|)];
        assert blocks[..i + 1] == blocks[..i] + [blocks[i]];
      }
      assert blocks[..|blocks|] == blocks;
    }

    method DropNode(parentId: nat, name: string, id: nat)
      requires Stored() && parentId in nodes && nodes[parentId].kind.Directory? && id in nodes && id != parentId
      modifies this, allocator
      ensures Stored()
      ensures parentId in old(Abs()).dirs && parentId in old(Abs()).times
      ensures Abs() == S.DropLeaf(old(Abs()), parentId, name, id)
    {
      hide S.DropLeaf, Store, Freed, SameBlocks, Shape, View, WithoutLeaf;
      SeenDirectory(blockSize, |allocator.freeBitmap|, allocator.freeCount, disk, nodes, parentId,
                    fdTable.entries, fdTable.nextFd, nextInodeId, tick);
      StoredBlocks(blockSize, disk, allocator.freeBitmap, nodes, owner, id);
      FreeBlocks(nodes[id].blocks);
      DropStores(blockSize, old(disk), old(allocator.freeBitmap), disk, allocator.freeBitmap, nodes, owner,
                 parentId, name, id, tick);
      DropSeen(blockSize, |allocator.freeBitmap|, old(allocator.freeCount), old(disk), disk, nodes, parentId, name, id,
               fdTable.entries, fdTable.nextFd, nextInodeId, tick);
      owner := map b | b in owner && owner[b].0 != id :: owner[b];
      nodes, tick := WithoutLeaf(nodes, parentId, name, id, tick), tick + 1;
    }

    /** Removes a file or an empty directory. */
    method Remove(path: string) returns (r: Result<()>)
      requires Valid()
      modifies this, allocator
      ensures Valid()
      ensures Abs() == S.Remove(old(Abs()), path).0
      ensures r == S.Remove(old(Abs()), path).1
    {
      hide S.Inv, Store, S.DropLeaf;
      L.RemoveKeepsInv(Abs(), path);
      var parent := ResolveParent(path);
      if parent.Failure? {
        return Failure(parent.error);
      }
      var (parentId, name) := parent.value;
      if parentId !in nodes || !nodes[parentId].kind.Directory? {
        return Failure(NotFound);
      }
      if name !in nodes[parentId].children {
        return Failure(NotFound);
      }
      var id := nodes[parentId].children[name];
      L.ChildIsNode(Abs(), parentId, name);
      if id !in nodes || id == S.ROOT {
        assert false;
      }
      if nodes[id].kind.Directory? && nodes[id].children != map[] {
        return Failure(InvalidState);
      }
      DropNode(parentId, name, id);
      return Success(());
    }

    /** Every operation answers as the flat specification does. */
    method Apply(op: L.Op) returns (out: L.Out)
      requires Valid()
      modifies this, allocator, fdTable
      ensures Valid()
      ensures Abs() == L.Step(old(Abs()), op).0 && out == L.Step(old(Abs()), op).1
    {
      hide S.Inv, Store, View, S.Open, S.Read, S.Write, S.Close, S.Mkdir, S.Remove;
      match op
      case DoOpen(path, mode) =>
        var r := Open(path, mode);
        out := L.Opened(r);
      case DoRead(fd, n) =>
        var buffer := new byte[n](_ => 0);
        var r := Read(fd, buffer);
        out := L.GotBytes(if r.Success? then Success(buffer[..r.value]) else Failure(r.error));
      case DoWrite(fd, data) =>
        var r := Write(fd, data);
        out := L.Wrote(r);
      case DoClose(fd) =>
        var r := Close(fd);
        out := L.Finished(r);
      case DoMkdir(path) =>
        var r := Mkdir(path);
        out := L.Finished(r);
      case DoRemove(path) =>
        var r := Remove(path);
        out := L.Finished(r);
    }

    /** Refinement over whole runs: the blocks on disk are never seen. */
    method RunAll(ops: seq<L.Op>) returns (outs: seq<L.Out>)
      requires Valid()
      modifies this, allocator, fdTable
      ensures Valid()
      ensures (Abs(), outs) == L.Run(old(Abs()), ops)
      decreases |ops|
    {
      hide S.Inv, Store, View, L.Step;
      if ops == [] {
        return [];
      }
      L.StepKeepsInv(Abs(), ops[0]);
      var out := Apply(ops[0]);
      var rest := RunAll(ops[1..]);
      return [out] + rest;
    }
  }
}