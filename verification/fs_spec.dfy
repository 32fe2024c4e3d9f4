/**
 The file system as its callers see it: every file is a flat byte string, directories are
 finite maps from names to inode ids, and the disk is a number of free blocks.
 */
module FileSystemSpec {
  import opened Core
  import opened PathNames
  import opened Descriptors

  const ROOT: nat := 1

  /** A file: its bytes and how many disk blocks it holds. */
  datatype FileData = FileData(bytes: seq<byte>, held: nat)

  datatype Times = Times(created: nat, modified: nat)

  type Dirs = map<nat, map<string, nat>>

  datatype FsState = FsState(
    blockSize: pos,
    total: nat,
    free: nat,
    dirs: Dirs,
    files: map<nat, FileData>,
    parent: map<nat, Option<nat>>,
    times: map<nat, Times>,
    fds: map<int, OpenFile>,
    nextFd: nat,
    nextId: nat,
    tick: nat)

  /** An empty root directory on a disk of `total` free blocks. */
  function Initial(blockSize: pos, total: nat): FsState {
    FsState(blockSize, total, total, map[ROOT := map[]], map[], map[ROOT := None], map[ROOT := Times(0, 0)],
            map[], 0, ROOT + 1, 0)
  }

  // ---------------------------------------------------------------- path resolution

  /** Follows the names one directory at a time. */
  function Walk(dirs: Dirs, from: nat, ts: seq<string>): (r: Result<nat>)
    decreases |ts|
  {
    if ts == [] then Success(from)
    else if from !in dirs || ts[0] !in dirs[from] then Failure(NotFound)
    else Walk(dirs, dirs[from][ts[0]], ts[1..])
  }

  function ResolvePath(dirs: Dirs, path: string): (r: Result<nat>) {
    if Split(path).Failure? then Failure(Split(path).error)
    else Walk(dirs, ROOT, Split(path).value)
  }

  /** The directory a path names its last component in, and that component. */
  function ResolveParent(dirs: Dirs, path: string): (r: Result<(nat, string)>) {
    if Split(path).Failure? then Failure(Split(path).error)
    else
      var ts := Split(path).value;
      if ts == [] then Failure(InvalidArgument)
      else
        var parent := Walk(dirs, ROOT, ts[..|ts| - 1]);
        if parent.Failure? then Failure(parent.error) else Success((parent.value, ts[|ts| - 1]))
  }

  // ---------------------------------------------------------------- operations

  /** Blocks needed for n bytes. */
  function BlocksFor(n: nat, blockSize: pos): nat {
    if n == 0 then 0 else (n + blockSize - 1) / blockSize
  }

  /** `data` laid over `b` from `offset` on; a hole is filled with zeros. */
  function Overwrite(b: seq<byte>, offset: nat, data: seq<byte>): (r: seq<byte>)
    ensures |r| == Max(|b|, offset + |data|)
    ensures forall i | 0 <= i < |r| ::
              r[i] == if offset <= i < offset + |data| then data[i - offset] else if i < |b| then b[i] else 0
  {
    seq(Max(|b|, offset + |data|), i requires 0 <= i < Max(|b|, offset + |data|) =>
      if offset <= i < offset + |data| then data[i - offset] else if i < |b| then b[i] else 0)
  }

  /** A new leaf called `name` in directory `parent`. */
  function AddLeaf(s: FsState, parent: nat, name: string, isDir: bool): (t: FsState)
    requires parent in s.dirs && parent in s.times
  {
    s.(dirs := (if isDir then s.dirs[s.nextId := map[]] else s.dirs)[parent := s.dirs[parent][name := s.nextId]],
       files := if isDir then s.files else s.files[s.nextId := FileData([], 0)],
       parent := s.parent[s.nextId := Some(parent)],
       times := s.times[s.nextId := Times(s.tick + 1, s.tick + 1)]
                       [parent := s.times[parent].(modified := s.tick + 2)],
       nextId := s.nextId + 1,
       tick := s.tick + 2)
  }

  function Truncate(s: FsState, id: nat): (t: FsState)
    requires id in s.files && id in s.times
  {
    s.(files := s.files[id := FileData([], 0)],
       free := s.free + s.files[id].held,
       times := s.times[id := s.times[id].(modified := s.tick + 1)],
       tick := s.tick + 1)
  }

  /** The open of an existing file `id`. */
  function OpenFileById(s: FsState, id: nat, mode: OpenMode): (r: (FsState, Result<int>))
    requires id in s.files && id in s.times
  {
    var t := if mode.truncate then Truncate(s, id) else s;
    var offset := if mode.append then |t.files[id].bytes| else 0;
    (t.(fds := t.fds[t.nextFd as int := OpenFile(id, offset, mode)], nextFd := t.nextFd + 1), Success(t.nextFd))
  }

  /** The inode a path denotes, made in its parent directory when it is missing and wanted. */
  function FindOrCreate(s: FsState, path: string, create: bool): (r: (FsState, Result<nat>))
    requires Tree(s)
  {
    var found := ResolvePath(s.dirs, path);
    if found.Success? || !create then (s, found)
    else
      var parent := ResolveParent(s.dirs, path);
      if parent.Failure? then (s, Failure(parent.error))
      else if parent.value.0 !in s.dirs then (s, Failure(NotFound))
      else (AddLeaf(s, parent.value.0, parent.value.1, false), Success(s.nextId))
  }

  function Open(s: FsState, path: string, mode: OpenMode): (r: (FsState, Result<int>))
    requires Inv(s)
  {
    if !mode.read && !mode.write then (s, Failure(InvalidArgument))
    else
      var (t, id) := FindOrCreate(s, path, mode.create);
      if id.Failure? then (s, Failure(id.error))
      else if id.value !in t.files then (s, Failure(InvalidState))
      else OpenFileById(t, id.value, mode)
  }

  /** At most `n` bytes from `offset` on. */
  function Slice(b: seq<byte>, offset: nat, n: nat): seq<byte> {
    if offset >= |b| then [] else b[offset..Min(|b|, offset + n)]
  }

  function Read(s: FsState, fd: int, n: nat): (r: (FsState, Result<seq<byte>>)) {
    if fd !in s.fds then (s, Failure(NotFound))
    else
      var f := s.fds[fd];
      if !f.mode.read then (s, Failure(PermissionDenied))
      else if f.inode !in s.files then (s, Failure(NotFound))
      else
        var data := Slice(s.files[f.inode].bytes, f.offset, n);
        (s.(fds := s.fds[fd := f.(offset := f.offset + |data|)]), Success(data))
  }

  /** File `id` holding `held` blocks; the others are free. */
  function Resize(s: FsState, id: nat, held: nat): (t: FsState)
    requires id in s.files && held <= s.files[id].held + s.free
  {
    s.(files := s.files[id := s.files[id].(held := held)], free := s.free + s.files[id].held - held)
  }

  /** `data` laid over file `id`, stamped with the next tick. */
  function Lay(s: FsState, id: nat, offset: nat, data: seq<byte>): (t: FsState)
    requires id in s.files && id in s.times
  {
    s.(files := s.files[id := s.files[id].(bytes := Overwrite(s.files[id].bytes, offset, data))],
       times := s.times[id := s.times[id].(modified := s.tick + 1)],
       tick := s.tick + 1)
  }

  /** A write that runs out of blocks keeps what it could get and changes no byte. */
  function WriteFile(s: FsState, id: nat, offset: nat, data: seq<byte>): (r: (FsState, Result<nat>))
    requires id in s.files && id in s.times
  {
    if data == [] then (s, Success(0))
    else
      var f := s.files[id];
      var need := BlocksFor(Max(|f.bytes|, offset + |data|), s.blockSize);
      if need > f.held + s.free then (Resize(s, id, f.held + s.free), Failure(OutOfMemory))
      else (Lay(Resize(s, id, need), id, offset, data), Success(|data|))
  }

  function Write(s: FsState, fd: int, data: seq<byte>): (r: (FsState, Result<nat>))
    requires Inv(s)
  {
    if fd !in s.fds then (s, Failure(NotFound))
    else
      var f := s.fds[fd];
      if !f.mode.write then (s, Failure(PermissionDenied))
      else if f.inode !in s.files then (s, Failure(NotFound))
      else
        var offset := if f.mode.append then |s.files[f.inode].bytes| else f.offset;
        var (t, n) := WriteFile(s, f.inode, offset, data);
        if n.Failure? then (t, n)
        else (t.(fds := t.fds[fd := f.(offset := offset + n.value)]), n)
  }

  function Close(s: FsState, fd: int): (r: (FsState, Result<()>)) {
    (s.(fds := s.fds - {fd}), if fd in s.fds then Success(()) else Failure(NotFound))
  }

  function Mkdir(s: FsState, path: string): (r: (FsState, Result<()>))
    requires Inv(s)
  {
    var parent := ResolveParent(s.dirs, path);
    if parent.Failure? then (s, Failure(parent.error))
    else
      var (d, name) := parent.value;
      if d !in s.dirs then (s, Failure(NotFound))
      else if name in s.dirs[d] then (s, Failure(AlreadyExists))
      else (AddLeaf(s, d, name, true), Success(()))
  }

  /** Takes the leaf `id`, called `name` in `parent`, out of the tree and frees its blocks. */
  function DropLeaf(s: FsState, parent: nat, name: string, id: nat): (t: FsState)
    requires parent in s.dirs && parent in s.times
  {
    s.(dirs := (s.dirs - {id})[parent := s.dirs[parent] - {name}],
       files := s.files - {id},
       free := s.free + (if id in s.files then s.files[id].held else 0),
       parent := s.parent - {id},
       times := (s.times - {id})[parent := s.times[parent].(modified := s.tick + 1)],
       tick := s.tick + 1)
  }

  function Remove(s: FsState, path: string): (r: (FsState, Result<()>))
    requires Inv(s)
  {
    var parent := ResolveParent(s.dirs, path);
    if parent.Failure? then (s, Failure(parent.error))
    else
      var (d, name) := parent.value;
      if d !in s.dirs || name !in s.dirs[d] then (s, Failure(NotFound))
      else
        var id := s.dirs[d][name];
        if id in s.dirs && s.dirs[id] != map[] then (s, Failure(InvalidState))
        else (DropLeaf(s, d, name, id), Success(()))
  }

  // ---------------------------------------------------------------- invariant

  /** Blocks held by all files together. */
  ghost function HeldBy(files: map<nat, FileData>): nat {
    if files == map[] then 0
    else
      var id :| id in files;
      files[id].held + HeldBy(files - {id})
  }

  /** The names form a tree rooted at inode 1: ids grow downwards and parent links agree. */
  ghost predicate TreeInv(dirs: Dirs, fileIds: set<nat>, parent: map<nat, Option<nat>>, nextId: nat) {
    && ROOT in dirs
    && dirs.Keys !! fileIds
    && parent.Keys == dirs.Keys + fileIds
    && parent[ROOT] == None
    && (forall id | id in parent :: ROOT <= id < nextId)
    && EntriesLinkBack(dirs, parent)
    && NamesDiffer(dirs)
    && AllNamed(dirs, parent)
  }

  ghost predicate EntriesLinkBack(dirs: Dirs, parent: map<nat, Option<nat>>) {
    forall d, n {:trigger dirs[d][n]} | d in dirs && n in dirs[d] :: Entry(parent, d, n, dirs[d][n])
  }

  ghost predicate NamesDiffer(dirs: Dirs) {
    forall d, n, m {:trigger dirs[d][n], dirs[d][m]} | d in dirs && n in dirs[d] && m in dirs[d] ::
      dirs[d][n] == dirs[d][m] ==> n == m
  }

  ghost predicate AllNamed(dirs: Dirs, parent: map<nat, Option<nat>>) {
    forall c {:trigger NamedByParent(dirs, parent, c)} | c in parent && c != ROOT :: NamedByParent(dirs, parent, c)
  }

  /** `c`, called `n` in directory `d`, is younger than `d` and links back to it. */
  ghost predicate Entry(parent: map<nat, Option<nat>>, d: nat, n: string, c: nat) {
    c in parent && d < c && parent[c] == Some(d) && ValidName(n)
  }

  /** The parent link of `c` leads to a directory that has an entry for `c`. */
  ghost predicate NamedByParent(dirs: Dirs, parent: map<nat, Option<nat>>, c: nat)
    requires c in parent
  {
    && parent[c].Some?
    && parent[c].value in dirs
    && exists n :: n in dirs[parent[c].value] && dirs[parent[c].value][n] == c
  }

  ghost predicate Tree(s: FsState) {
    TreeInv(s.dirs, s.files.Keys, s.parent, s.nextId) && s.times.Keys == s.parent.Keys
  }

  /** Descriptors were handed out before `nextFd` and never denote a directory. */
  ghost predicate FdInv(s: FsState) {
    forall fd | fd in s.fds ::
      0 <= fd < s.nextFd && s.fds[fd].inode < s.nextId && s.fds[fd].inode !in s.dirs
  }

  /** Blocks are conserved and every file fits in the blocks it holds. */
  ghost predicate SpaceInv(s: FsState) {
    && s.free + HeldBy(s.files) == s.total
    && forall id | id in s.files :: Fits(s.files[id], s.blockSize)
  }

  ghost predicate Fits(f: FileData, blockSize: pos) {
    |f.bytes| <= f.held * blockSize
  }

  ghost predicate Inv(s: FsState) {
    Tree(s) && FdInv(s) && SpaceInv(s)
  }
}
