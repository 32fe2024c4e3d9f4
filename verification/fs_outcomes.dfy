/** When each file operation succeeds, what it then leaves behind, and how operations fit together. */
module FileSystemOutcomes {
  import opened Core
  import opened PathNames
  import opened Descriptors
  import opened FileSystemSpec
  import opened FileSystemLaws

  // ---------------------------------------------------------------- writing and reading through a descriptor

  /** Where the next write through `fd` goes: to the end of the file when appending. */
  ghost function Place(s: FsState, fd: int): nat
    requires fd in s.fds
  {
    var f := s.fds[fd];
    if f.mode.append && f.inode in s.files then |s.files[f.inode].bytes| else f.offset
  }

  ghost predicate Writable(s: FsState, fd: int) {
    fd in s.fds && s.fds[fd].mode.write && s.fds[fd].inode in s.files
  }

  /** The disk has room for the file with `data` written at `at`. */
  ghost predicate Room(s: FsState, id: nat, at: nat, size: nat)
    requires id in s.files
  {
    size == 0 || Max(|s.files[id].bytes|, at + size) <= (s.files[id].held + s.free) * s.blockSize
  }

  lemma RoomIffBlocks(n: nat, held: nat, blockSize: pos)
    ensures BlocksFor(n, blockSize) <= held <==> n <= held * blockSize
  {
    BlocksForCovers(n, blockSize);
    var b := BlocksFor(n, blockSize);
    assert b <= held ==> b * blockSize <= held * blockSize;
    assert held + 1 <= b ==> (held + 1) * blockSize <= b * blockSize;
  }

  /**
   A write succeeds exactly through a writable descriptor whose file has room on the disk. Then
   the data stand at the place of the descriptor, the rest of the file is as it was or zero, and
   the descriptor stands behind the data. For want of room the file keeps all the free blocks.
   */
  lemma WriteOutcome(s: FsState, fd: int, data: seq<byte>)
    requires Inv(s)
    ensures var (t, r) := Write(s, fd, data);
            && (r.Success? <==> Writable(s, fd) && Room(s, s.fds[fd].inode, Place(s, fd), |data|))
            && (r.Failure? ==> r.error == if Writable(s, fd) then OutOfMemory
                                          else if fd in s.fds && !s.fds[fd].mode.write then PermissionDenied
                                          else NotFound)
            && (r.Failure? ==> t.fds == s.fds)
            && (r.Failure? && Writable(s, fd) ==>
                  var id := s.fds[fd].inode;
                  t.free == 0 && id in t.files && t.files[id].held == s.files[id].held + s.free)
            && (r.Success? ==>
                  var id, at := s.fds[fd].inode, Place(s, fd);
                  && r.value == |data|
                  && t.fds == s.fds[fd := OpenFile(id, at + |data|, s.fds[fd].mode)]
                  && t.files.Keys == s.files.Keys && t.dirs == s.dirs
                  && (forall other | other in s.files && other != id :: t.files[other] == s.files[other])
                  && Written(s.files[id].bytes, at, data, t.files[id].bytes))
  {
    hide TreeInv, HeldBy;
    if Writable(s, fd) && data != [] {
      var f := s.files[s.fds[fd].inode];
      RoomIffBlocks(Max(|f.bytes|, Place(s, fd) + |data|), f.held + s.free, s.blockSize);
    }
  }

  /** `after` is `before` with `data` at `at`; an empty write does not fill a hole. */
  ghost predicate Written(before: seq<byte>, at: nat, data: seq<byte>, after: seq<byte>) {
    && |after| == (if data == [] then |before| else Max(|before|, at + |data|))
    && (forall i | 0 <= i < |data| :: after[at + i] == data[i])
    && (forall i | 0 <= i < |after| && !(at <= i < at + |data|) :: after[i] == if i < |before| then before[i] else 0)
  }

  /** A write through a descriptor is a write at its place, which moves the descriptor on. */
  lemma WriteMoves(s: FsState, fd: int, data: seq<byte>)
    requires Inv(s) && Writable(s, fd)
    ensures s.fds[fd].inode in s.times
    ensures var f := s.fds[fd];
            var (t, n) := WriteFile(s, f.inode, Place(s, fd), data);
            var (u, r) := Write(s, fd, data);
            && r == n && u.files == t.files && u.free == t.free && u.dirs == s.dirs && u.blockSize == s.blockSize
            && u.fds == if n.Failure? then s.fds else s.fds[fd := f.(offset := Place(s, fd) + |data|)]
  {
    InvParts(s);
    FileHasTimes(s, s.fds[fd].inode);
    hide TreeInv, SpaceInv;
  }

  /** What a write at a place does depends on the files and the free blocks only. */
  lemma WriteFileDependsOn(s: FsState, t: FsState, id: nat, offset: nat, data: seq<byte>)
    requires id in s.files && id in s.times && id in t.times
    requires t.files == s.files && t.free == s.free && t.blockSize == s.blockSize
    ensures var (u, p) := WriteFile(s, id, offset, data);
            var (v, q) := WriteFile(t, id, offset, data);
            q == p && v.files == u.files && v.free == u.free
  {
  }

  /** After a successful write the descriptor's next place is behind the data. */
  lemma NextPlace(s: FsState, fd: int, data: seq<byte>)
    requires Inv(s) && Write(s, fd, data).1.Success?
    ensures Writable(s, fd) && Writable(Write(s, fd, data).0, fd)
    ensures Place(Write(s, fd, data).0, fd) == Place(s, fd) + |data|
  {
    WriteOutcome(s, fd, data);
  }

  /** Two writes in a row through one descriptor succeed and leave exactly what one write of the joined data does. */
  lemma WritesJoin(s: FsState, fd: int, d: seq<byte>, e: seq<byte>)
    requires Inv(s) && Write(s, fd, d).1.Success?
    ensures Inv(Write(s, fd, d).0)
    ensures var (u, q) := Write(Write(s, fd, d).0, fd, e);
            var (v, p) := Write(s, fd, d + e);
            && (p.Success? <==> q.Success?)
            && (p.Success? ==> u.files == v.files && u.free == v.free && u.fds == v.fds && u.dirs == v.dirs)
  {
    hide Inv, Write, WriteFile, Place, Writable;
    WriteKeepsInv(s, fd, d);
    NextPlace(s, fd, d);
    var t, at := Write(s, fd, d).0, Place(s, fd);
    WriteMoves(s, fd, d);
    WriteMoves(t, fd, e);
    WriteMoves(s, fd, d + e);
    JoinAt(s, t, fd, at, d, e);
  }

  lemma JoinAt(s: FsState, t: FsState, fd: int, at: nat, d: seq<byte>, e: seq<byte>)
    requires Inv(s) && fd in s.fds && s.fds[fd].inode in s.files
    requires s.fds[fd].inode in s.times && s.fds[fd].inode in t.times
    requires var (t0, r) := WriteFile(s, s.fds[fd].inode, at, d);
             r.Success? && t.files == t0.files && t.free == t0.free && t.blockSize == s.blockSize
    ensures var id := s.fds[fd].inode;
            var (u, q) := WriteFile(t, id, at + |d|, e);
            var (v, p) := WriteFile(s, id, at, d + e);
            && (p.Success? <==> q.Success?)
            && (p.Success? ==> u.files == v.files && u.free == v.free)
  {
    hide Inv, Overwrite, BlocksFor;
    var id := s.fds[fd].inode;
    if d == [] {
      assert d + e == e;
      WriteFileDependsOn(s, t, id, at, e);
    } else if e == [] {
      assert d + e == d;
    } else {
      WritesConcatenate(s, id, at, d, e);
      WriteFileDependsOn(WriteFile(s, id, at, d).0, t, id, at + |d|, e);
    }
  }

  /**
   A read succeeds exactly through a readable descriptor of a file that is still there. It gives
   the bytes from the descriptor's offset on, as many as asked for or left, and moves behind them.
   */
  lemma ReadOutcome(s: FsState, fd: int, n: nat)
    ensures var (t, r) := Read(s, fd, n);
            && (r.Success? <==> fd in s.fds && s.fds[fd].mode.read && s.fds[fd].inode in s.files)
            && (r.Failure? ==>
                  t == s && r.error == if fd in s.fds && !s.fds[fd].mode.read then PermissionDenied else NotFound)
            && (r.Success? ==>
                  var f := s.fds[fd];
                  var bytes := s.files[f.inode].bytes;
                  && |r.value| == (if f.offset >= |bytes| then 0 else Min(n, |bytes| - f.offset))
                  && (forall i | 0 <= i < |r.value| :: r.value[i] == bytes[f.offset + i])
                  && t == s.(fds := s.fds[fd := OpenFile(f.inode, f.offset + |r.value|, f.mode)]))
  {
  }

  /** Closing forgets exactly an open descriptor. */
  lemma CloseOutcome(s: FsState, fd: int)
    ensures var (t, r) := Close(s, fd);
            && (r.Success? <==> fd in s.fds) && (r.Failure? ==> t == s && r.error == NotFound)
            && fd !in t.fds && (forall other | other != fd :: other in t.fds <==> other in s.fds)
            && (forall other | other in t.fds :: t.fds[other] == s.fds[other])
            && t == s.(fds := t.fds)
  {
  }

  // ---------------------------------------------------------------- opening, creating, removing

  /** The last component of the path would be an entry of an existing directory. */
  ghost predicate HasDirectory(dirs: Dirs, path: string) {
    && Split(path).Success? && Split(path).value != []
    && var ts := Split(path).value;
       var up := Walk(dirs, ROOT, ts[..|ts| - 1]);
       up.Success? && up.value in dirs
  }

  /** The parent of a path resolves to a directory exactly when the path has one. */
  lemma ParentIffDirectory(dirs: Dirs, path: string)
    ensures var parent := ResolveParent(dirs, path);
            HasDirectory(dirs, path) <==> parent.Success? && parent.value.0 in dirs
  {
  }

  /** The path denotes a file, or nothing yet where a file can be made. */
  ghost predicate Openable(s: FsState, path: string, mode: OpenMode) {
    && (mode.read || mode.write)
    && (if ResolvePath(s.dirs, path).Success? then ResolvePath(s.dirs, path).value in s.files
        else mode.create && HasDirectory(s.dirs, path))
  }

  /**
   The file of the path: new or truncated ones are empty and hold no blocks, any other is as it
   was, and no other file has changed. The offset is the end of the file when appending, else 0.
   */
  ghost predicate OpenedAs(s: FsState, t: FsState, path: string, mode: OpenMode, f: OpenFile) {
    && f.inode in t.files && ResolvePath(t.dirs, path) == Success(f.inode)
    && (if f.inode in s.files && !mode.truncate then t.files[f.inode] == s.files[f.inode]
        else t.files[f.inode] == FileData([], 0))
    && t.files - {f.inode} == s.files - {f.inode}
    && t.free == s.free + (if f.inode in s.files then s.files[f.inode].held - t.files[f.inode].held else 0)
    && f.mode == mode && f.offset == if mode.append then |t.files[f.inode].bytes| else 0
  }

  lemma OpenedExisting(s: FsState, path: string, mode: OpenMode)
    requires Inv(s) && (mode.read || mode.write)
    requires ResolvePath(s.dirs, path).Success? && ResolvePath(s.dirs, path).value in s.files
    ensures var (t, r) := Open(s, path, mode);
            && r == Success(s.nextFd) && s.nextFd in t.fds && t.fds - {s.nextFd} == s.fds - {s.nextFd}
            && OpenedAs(s, t, path, mode, t.fds[s.nextFd])
  {
    hide TreeInv, SpaceInv, FdInv, Split, Walk, ResolveParent;
    InvParts(s);
    FileHasTimes(s, ResolvePath(s.dirs, path).value);
  }

  lemma OpenedNew(s: FsState, path: string, mode: OpenMode)
    requires Inv(s) && (mode.read || mode.write)
    requires ResolvePath(s.dirs, path).Failure? && mode.create && HasDirectory(s.dirs, path)
    ensures var (t, r) := Open(s, path, mode);
            && r == Success(s.nextFd) && s.nextFd in t.fds && t.fds - {s.nextFd} == s.fds - {s.nextFd}
            && OpenedAs(s, t, path, mode, t.fds[s.nextFd])
  {
    hide TreeInv, SpaceInv, FdInv, Split, Walk;
    InvParts(s);
    NextIdIsFresh(s);
    ParentIffDirectory(s.dirs, path);
    OpenCreatesOnePath(s, path, mode);
  }

  lemma FreshHandle(s: FsState)
    requires Inv(s)
    ensures s.nextFd !in s.fds && s.fds - {s.nextFd} == s.fds
  {
  }

  /**
   An open succeeds exactly for a mode that reads or writes and a path that denotes a file or can
   be made to; the handle is new.
   */
  lemma OpenOutcome(s: FsState, path: string, mode: OpenMode)
    requires Inv(s)
    ensures var (t, r) := Open(s, path, mode);
            && (r.Success? <==> Openable(s, path, mode))
            && (r.Failure? ==> t == s && r.error == if !mode.read && !mode.write then InvalidArgument
                                                    else if ResolvePath(s.dirs, path).Success? then InvalidState
                                                    else if Split(path).Failure? || (mode.create && Split(path) == Success([]))
                                                    then InvalidArgument else NotFound)
            && (r.Success? ==>
                  && r.value !in s.fds && r.value in t.fds && t.fds - {r.value} == s.fds
                  && OpenedAs(s, t, path, mode, t.fds[r.value]))
  {
    hide TreeInv, SpaceInv, FdInv, OpenedAs;
    InvParts(s);
    ParentIffDirectory(s.dirs, path);
    FreshHandle(s);
    SplitErrors(path);
    if Openable(s, path, mode) {
      if ResolvePath(s.dirs, path).Success? {
        OpenedExisting(s, path, mode);
      } else {
        OpenedNew(s, path, mode);
      }
    } else {
      if Split(path).Success? {
        WalkFailsWithNotFound(s.dirs, ROOT, Split(path).value);
        if Split(path).value != [] {
          WalkFailsWithNotFound(s.dirs, ROOT, Split(path).value[..|Split(path).value| - 1]);
        }
      }
    }
  }

  /** A directory is made exactly where the path is free in an existing directory. */
  lemma MkdirOutcome(s: FsState, path: string)
    requires Inv(s)
    ensures var (t, r) := Mkdir(s, path);
            && (r.Success? <==> HasDirectory(s.dirs, path) && ResolvePath(s.dirs, path).Failure?)
            && (r.Failure? ==> t == s && r.error == if Split(path).Failure? || Split(path) == Success([]) then InvalidArgument
                                                    else if HasDirectory(s.dirs, path) then AlreadyExists
                                                    else NotFound)
            && t.files == s.files && t.free == s.free && t.fds == s.fds
  {
    hide TreeInv, SpaceInv, FdInv;
    ParentIffDirectory(s.dirs, path);
    ResolversAgree(s.dirs, path);
    SplitErrors(path);
    if Split(path).Success? && Split(path).value != [] {
      WalkFailsWithNotFound(s.dirs, ROOT, Split(path).value[..|Split(path).value| - 1]);
    }
  }

  /**
   A path is removed exactly if it denotes a file or an empty directory other than the root. The
   blocks of a file are free again; open descriptors stay.
   */
  lemma RemoveOutcome(s: FsState, path: string)
    requires Inv(s)
    ensures var (t, r) := Remove(s, path);
            var found := ResolvePath(s.dirs, path);
            && (r.Success? <==> Split(path) != Success([]) && found.Success? &&
                                (found.value in s.dirs ==> s.dirs[found.value] == map[]))
            && (r.Failure? ==> t == s && r.error == if Split(path).Failure? || Split(path) == Success([]) then InvalidArgument
                                                    else if found.Success? then InvalidState
                                                    else NotFound)
            && (r.Success? ==>
                  && t.files == s.files - {found.value} && t.fds == s.fds
                  && t.free == s.free + (if found.value in s.files then s.files[found.value].held else 0))
  {
    hide TreeInv, SpaceInv, FdInv;
    ResolversAgree(s.dirs, path);
    SplitErrors(path);
    if Split(path).Success? && Split(path).value != [] {
      WalkFailsWithNotFound(s.dirs, ROOT, Split(path).value[..|Split(path).value| - 1]);
    }
  }

  // ---------------------------------------------------------------- handles over a run

  /** The handles that opens have returned, in order. */
  function Handles(outs: seq<Out>): seq<int> {
    if outs == [] then []
    else (if outs[0].Opened? && outs[0].fd.Success? then [outs[0].fd.value] else []) + Handles(outs[1..])
  }

  lemma StepHandles(s: FsState, op: Op)
    requires Inv(s)
    ensures var (t, out) := Step(s, op);
            && s.nextFd <= t.nextFd
            && (out.Opened? && out.fd.Success? ==> out.fd.value == s.nextFd < t.nextFd)
  {
    hide TreeInv, SpaceInv, FdInv, ResolvePath, ResolveParent;
  }

  ghost predicate IncreasingFrom(hs: seq<int>, least: int) {
    (forall i | 0 <= i < |hs| :: least <= hs[i]) && (forall i, j | 0 <= i < j < |hs| :: hs[i] < hs[j])
  }

  lemma MoreHandles(first: seq<int>, rest: seq<int>, least: int, next: int)
    requires IncreasingFrom(rest, next) && least <= next && (first == [] || (first == [least] && least < next))
    ensures IncreasingFrom(first + rest, least)
  {
  }

  lemma HandlesOfMore(out: Out, outs: seq<Out>)
    ensures Handles([out] + outs) == (if out.Opened? && out.fd.Success? then [out.fd.value] else []) + Handles(outs)
  {
    assert ([out] + outs)[1..] == outs;
  }

  /** No handle is ever given out twice: the handles of a run are increasing. */
  lemma {:induction false} HandlesIncrease(s: FsState, ops: seq<Op>)
    requires Inv(s)
    ensures IncreasingFrom(Handles(Run(s, ops).1), s.nextFd)
    decreases |ops|
  {
    hide Inv, Step, IncreasingFrom, Handles;
    if ops == [] {
      NoHandles(s.nextFd);
    } else {
      StepKeepsInv(s, ops[0]);
      StepHandles(s, ops[0]);
      var (t, out) := Step(s, ops[0]);
      HandlesIncrease(t, ops[1..]);
      HandlesOfMore(out, Run(t, ops[1..]).1);
      MoreHandles(if out.Opened? && out.fd.Success? then [out.fd.value] else [], Handles(Run(t, ops[1..]).1),
                  s.nextFd, t.nextFd);
    }
  }

  lemma NoHandles(least: int)
    ensures IncreasingFrom(Handles([]), least)
  {
  }

  // ---------------------------------------------------------------- time stamps

  /** No node was created after its last change, and none was changed in the future. */
  ghost predicate Stamped(s: FsState) {
    forall id | id in s.times :: s.times[id].created <= s.times[id].modified <= s.tick
  }

  /** The stamps of node `id` are as they were, or later than all stamps were. */
  ghost predicate StampFollows(s: FsState, t: FsState, id: nat)
    requires id in t.times
  {
    (id in s.times && t.times[id] == s.times[id]) ||
    (s.tick < t.times[id].modified <= t.tick &&
     if id in s.times then t.times[id].created == s.times[id].created
     else s.tick < t.times[id].created <= t.times[id].modified)
  }

  /** Whatever has changed is stamped anew. */
  ghost predicate ChangesAreStamped(s: FsState, t: FsState) {
    && s.tick <= t.tick
    && (forall id | id in t.times :: StampFollows(s, t, id))
    && (forall id | id in s.files && id in t.files && id in t.times && t.files[id].bytes != s.files[id].bytes ::
          s.tick < t.times[id].modified)
    && (forall id | id in s.dirs && id in t.dirs && id in t.times && t.dirs[id] != s.dirs[id] ::
          s.tick < t.times[id].modified)
  }

  lemma AddLeafStamps(s: FsState, parent: nat, name: string, isDir: bool)
    requires Stamped(s) && parent in s.dirs && parent in s.times && s.nextId !in s.times && s.nextId !in s.dirs
    requires s.nextId !in s.files
    ensures Stamped(AddLeaf(s, parent, name, isDir)) && ChangesAreStamped(s, AddLeaf(s, parent, name, isDir))
  {
  }

  lemma TruncateStamps(s: FsState, id: nat)
    requires Stamped(s) && id in s.files && id in s.times
    ensures Stamped(Truncate(s, id)) && ChangesAreStamped(s, Truncate(s, id))
  {
  }

  lemma WriteFileStamps(s: FsState, id: nat, offset: nat, data: seq<byte>)
    requires Stamped(s) && id in s.files && id in s.times
    ensures var t := WriteFile(s, id, offset, data).0; Stamped(t) && ChangesAreStamped(s, t)
  {
    hide Overwrite, BlocksFor;
  }

  lemma DropLeafStamps(s: FsState, parent: nat, name: string, id: nat)
    requires Stamped(s) && parent in s.dirs && parent in s.times && parent != id
    ensures Stamped(DropLeaf(s, parent, name, id)) && ChangesAreStamped(s, DropLeaf(s, parent, name, id))
  {
  }

  lemma StampsAddUp(s: FsState, t: FsState, u: FsState)
    requires Stamped(s) && ChangesAreStamped(s, t) && ChangesAreStamped(t, u)
    requires forall id | id in s.times && id in u.times :: id in t.times
    requires forall id | id in s.files && id in u.files :: id in t.files
    requires forall id | id in s.dirs && id in u.dirs :: id in t.dirs
    ensures ChangesAreStamped(s, u)
  {
    forall id | id in u.times
      ensures StampFollows(s, u, id)
    {
      assert StampFollows(t, u, id);
      assert id in t.times ==> StampFollows(s, t, id);
    }
  }

  lemma NothingChanged(s: FsState, t: FsState)
    requires t.tick == s.tick && t.times == s.times && t.dirs == s.dirs
    requires forall id | id in s.files && id in t.files :: t.files[id].bytes == s.files[id].bytes
    ensures Stamped(s) ==> Stamped(t) && ChangesAreStamped(s, t)
  {
  }

  /** The descriptors do not matter. */
  lemma SameButDescriptors(s: FsState, t: FsState, u: FsState)
    requires u.tick == t.tick && u.times == t.times && u.dirs == t.dirs && u.files == t.files
    ensures Stamped(t) ==> Stamped(u)
    ensures ChangesAreStamped(s, t) ==> ChangesAreStamped(s, u)
  {
  }

  lemma FoundOrCreatedStamps(s: FsState, path: string, create: bool)
    requires Inv(s) && Stamped(s)
    ensures var (t, r) := FindOrCreate(s, path, create);
            && Stamped(t) && ChangesAreStamped(s, t)
            && s.times.Keys <= t.times.Keys && s.files.Keys <= t.files.Keys && s.dirs.Keys <= t.dirs.Keys
            && (r.Success? && r.value in t.files ==> r.value in t.times)
  {
    hide TreeInv, SpaceInv, FdInv, Stamped, ChangesAreStamped, ResolvePath;
    InvParts(s);
    NextIdIsFresh(s);
    NothingChanged(s, s);
    var found, parent := ResolvePath(s.dirs, path), ResolveParent(s.dirs, path);
    if found.Success? && found.value in s.files {
      FileHasTimes(s, found.value);
    }
    if found.Failure? && create && parent.Success? && parent.value.0 in s.dirs {
      NodesHaveTimes(s, parent.value.0);
      AddLeafStamps(s, parent.value.0, parent.value.1, false);
    }
  }

  lemma NodesHaveTimes(s: FsState, id: nat)
    requires Inv(s)
    ensures id in s.dirs ==> id in s.times
    ensures s.nextId !in s.times
  {
  }

  lemma OpenStamps(s: FsState, path: string, mode: OpenMode)
    requires Inv(s) && Stamped(s)
    ensures var t := Open(s, path, mode).0; Stamped(t) && ChangesAreStamped(s, t)
  {
    hide TreeInv, SpaceInv, FdInv, Stamped, ChangesAreStamped, ResolvePath, FindOrCreate, Truncate;
    NothingChanged(s, s);
    FoundOrCreatedStamps(s, path, mode.create);
    FindOrCreateFails(s, path, mode.create);
    var (t, id) := FindOrCreate(s, path, mode.create);
    if id.Success? && id.value in t.files {
      TruncateStamps(t, id.value);
      TruncateKeys(t, id.value);
      StampsAddUp(s, t, Truncate(t, id.value));
      SameButDescriptors(s, if mode.truncate then Truncate(t, id.value) else t, OpenFileById(t, id.value, mode).0);
    }
  }

  lemma TruncateKeys(s: FsState, id: nat)
    requires id in s.files && id in s.times
    ensures var t := Truncate(s, id); t.times.Keys == s.times.Keys && t.files.Keys == s.files.Keys && t.dirs == s.dirs
  {
  }

  lemma WriteStamps(s: FsState, fd: int, data: seq<byte>)
    requires Inv(s) && Stamped(s)
    ensures var t := Write(s, fd, data).0; Stamped(t) && ChangesAreStamped(s, t)
  {
    hide Inv, Stamped, ChangesAreStamped, WriteFile;
    NothingChanged(s, s);
    if Writable(s, fd) {
      InvParts(s);
      FileHasTimes(s, s.fds[fd].inode);
      var t := WriteFile(s, s.fds[fd].inode, Place(s, fd), data).0;
      WriteFileStamps(s, s.fds[fd].inode, Place(s, fd), data);
      SameButDescriptors(s, t, Write(s, fd, data).0);
    }
  }

  lemma MkdirStamps(s: FsState, path: string)
    requires Inv(s) && Stamped(s)
    ensures var t := Mkdir(s, path).0; Stamped(t) && ChangesAreStamped(s, t)
  {
    hide TreeInv, SpaceInv, FdInv, Stamped, ChangesAreStamped, AddLeaf;
    NothingChanged(s, s);
    NextIdIsFresh(s);
    var parent := ResolveParent(s.dirs, path);
    if parent.Success? && parent.value.0 in s.dirs {
      NodesHaveTimes(s, parent.value.0);
      AddLeafStamps(s, parent.value.0, parent.value.1, true);
    }
  }

  lemma RemoveStamps(s: FsState, path: string)
    requires Inv(s) && Stamped(s)
    ensures var t := Remove(s, path).0; Stamped(t) && ChangesAreStamped(s, t)
  {
    hide TreeInv, SpaceInv, FdInv, Stamped, ChangesAreStamped, DropLeaf;
    NothingChanged(s, s);
    var parent := ResolveParent(s.dirs, path);
    if parent.Success? && parent.value.0 in s.dirs && parent.value.1 in s.dirs[parent.value.0] {
      var (d, name) := parent.value;
      NodesHaveTimes(s, d);
      ChildIsNode(s, d, name);
      DropLeafStamps(s, d, name, s.dirs[d][name]);
    }
  }

  /** In every run time stamps tell: what an operation changes is stamped later than everything before it. */
  lemma StampsTellChanges(s: FsState, op: Op)
    requires Inv(s) && Stamped(s)
    ensures var t := Step(s, op).0; Stamped(t) && ChangesAreStamped(s, t)
  {
    hide Inv, Stamped, ChangesAreStamped, Open, Write, Mkdir, Remove;
    match op
    case DoOpen(path, mode) => OpenStamps(s, path, mode);
    case DoRead(fd, n) => NothingChanged(s, Read(s, fd, n).0);
    case DoWrite(fd, data) => WriteStamps(s, fd, data);
    case DoClose(fd) => NothingChanged(s, Close(s, fd).0);
    case DoMkdir(path) => MkdirStamps(s, path);
    case DoRemove(path) => RemoveStamps(s, path);
  }

  lemma InitialIsStamped(blockSize: pos, total: nat)
    ensures Stamped(Initial(blockSize, total))
  {
  }
}
