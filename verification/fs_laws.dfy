/** What every operation and every run of the file system keeps, and what each one changes. */
module FileSystemLaws {
  import opened Core
  import opened PathNames
  import opened Descriptors
  import opened FileSystemSpec

  // ---------------------------------------------------------------- conservation of blocks

  lemma {:induction false} HeldByRemove(files: map<nat, FileData>, id: nat)
    requires id in files
    ensures HeldBy(files) == files[id].held + HeldBy(files - {id})
    decreases |files|
  {
    var x :| x in files && HeldBy(files) == files[x].held + HeldBy(files - {x});
    if x != id {
      HeldByRemove(files - {x}, id);
      HeldByRemove(files - {id}, x);
      assert files - {x} - {id} == files - {id} - {x};
    }
  }

  lemma HeldByPut(files: map<nat, FileData>, id: nat, f: FileData)
    ensures HeldBy(files[id := f]) == HeldBy(files) + f.held - (if id in files then files[id].held else 0)
  {
    HeldByRemove(files[id := f], id);
    assert files[id := f] - {id} == files - {id};
    if id in files {
      HeldByRemove(files, id);
    } else {
      assert files - {id} == files;
    }
  }

  // ---------------------------------------------------------------- block arithmetic

  lemma BlocksForCovers(n: nat, blockSize: pos)
    ensures n <= BlocksFor(n, blockSize) * blockSize
    ensures BlocksFor(n, blockSize) * blockSize < n + blockSize
  {
    if n > 0 {
      var m := n + blockSize - 1;
      assert m == m / blockSize * blockSize + m % blockSize;
    }
  }

  lemma BlocksForMonotone(m: nat, n: nat, blockSize: pos)
    requires m <= n
    ensures BlocksFor(m, blockSize) <= BlocksFor(n, blockSize)
  {
    BlocksForCovers(m, blockSize);
    BlocksForCovers(n, blockSize);
    var a, b := BlocksFor(m, blockSize), BlocksFor(n, blockSize);
    assert b < a ==> (b + 1) * blockSize <= a * blockSize;
  }

  // ---------------------------------------------------------------- operations keep the invariant

  lemma InitialIsConsistent(blockSize: pos, total: nat)
    ensures Inv(Initial(blockSize, total))
  {
  }

  /** `t` is consistent and is the same disk, handing out ids and handles upwards. */
  ghost predicate Follows(s: FsState, t: FsState) {
    Inv(t) && t.total == s.total && t.blockSize == s.blockSize && s.nextId <= t.nextId && s.nextFd <= t.nextFd
  }

  lemma InvParts(s: FsState)
    requires Inv(s)
    ensures Tree(s) && FdInv(s) && SpaceInv(s)
  {
  }

  lemma FindOrCreateFails(s: FsState, path: string, create: bool)
    requires Tree(s)
    ensures var (t, r) := FindOrCreate(s, path, create); r.Failure? || r.value !in t.files ==> t == s
  {
  }

  lemma FileHasTimes(s: FsState, id: nat)
    requires Tree(s) && id in s.files
    ensures id in s.times
  {
  }

  lemma NextIdIsFresh(s: FsState)
    requires Inv(s)
    ensures s.nextId !in s.parent && s.nextId !in s.files && s.nextId !in s.dirs
  {
  }

  lemma ChildIsNode(s: FsState, d: nat, name: string)
    requires Inv(s) && d in s.dirs && name in s.dirs[d]
    ensures s.dirs[d][name] in s.parent && ROOT <= d < s.dirs[d][name]
  {
  }

  lemma DescriptorDenotesFile(s: FsState, fd: int)
    requires Inv(s) && fd in s.fds
    ensures s.fds[fd].inode !in s.dirs && SpaceInv(s)
  {
  }

  lemma WriteFileKeepsDescriptors(s: FsState, id: nat, offset: nat, data: seq<byte>)
    requires id in s.files && id in s.times
    ensures WriteFile(s, id, offset, data).0.fds == s.fds
  {
  }

  lemma ReadKeepsInv(s: FsState, fd: int, n: nat)
    requires Inv(s)
    ensures Follows(s, Read(s, fd, n).0)
  {
  }

  lemma CloseKeepsInv(s: FsState, fd: int)
    requires Inv(s)
    ensures Follows(s, Close(s, fd).0)
  {
  }

  lemma AddLeafKeepsTree(s: FsState, p: nat, name: string, isDir: bool)
    requires Tree(s) && p in s.dirs && name !in s.dirs[p] && ValidName(name)
    ensures Tree(AddLeaf(s, p, name, isDir))
  {
    hide AllNamed, NamesDiffer, EntriesLinkBack, AddLeaf;
    AddLeafKeys(s, p, name, isDir);
    AddLeafAllNamed(s, p, name, isDir);
    AddLeafNamesDiffer(s, p, name, isDir);
    AddLeafLinksBack(s, p, name, isDir);
  }

  lemma AddLeafKeys(s: FsState, p: nat, name: string, isDir: bool)
    requires p in s.dirs && p in s.times
    ensures var t := AddLeaf(s, p, name, isDir);
            && t.dirs.Keys == s.dirs.Keys + (if isDir then {s.nextId} else {})
            && t.files.Keys == s.files.Keys + (if isDir then {} else {s.nextId})
            && t.parent.Keys == s.parent.Keys + {s.nextId}
            && t.times.Keys == s.times.Keys + {s.nextId}
            && t.nextId == s.nextId + 1
            && t.parent == s.parent[s.nextId := Some(p)]
  {
  }

  lemma DropLeafKeys(s: FsState, p: nat, name: string, id: nat)
    requires p in s.dirs && p in s.times && p != id
    ensures var t := DropLeaf(s, p, name, id);
            && t.dirs.Keys == s.dirs.Keys - {id}
            && t.files.Keys == s.files.Keys - {id}
            && t.parent.Keys == s.parent.Keys - {id}
            && t.times.Keys == s.times.Keys - {id}
            && t.nextId == s.nextId
            && t.parent == s.parent - {id}
  {
  }

  lemma AddLeafLinksBack(s: FsState, p: nat, name: string, isDir: bool)
    requires Tree(s) && p in s.dirs && name !in s.dirs[p] && ValidName(name)
    ensures var t := AddLeaf(s, p, name, isDir); EntriesLinkBack(t.dirs, t.parent)
  {
    hide AllNamed, NamesDiffer;
    var t := AddLeaf(s, p, name, isDir);
    forall d, n | d in t.dirs && n in t.dirs[d]
      ensures Entry(t.parent, d, n, t.dirs[d][n])
    {
      assert d in s.dirs && n in s.dirs[d] ==> Entry(s.parent, d, n, s.dirs[d][n]);
    }
  }

  lemma AddLeafAllNamed(s: FsState, p: nat, name: string, isDir: bool)
    requires Tree(s) && p in s.dirs && name !in s.dirs[p]
    ensures var t := AddLeaf(s, p, name, isDir); AllNamed(t.dirs, t.parent)
  {
    hide EntriesLinkBack, NamesDiffer;
    var t := AddLeaf(s, p, name, isDir);
    forall c | c in t.parent && c != ROOT
      ensures NamedByParent(t.dirs, t.parent, c)
    {
      if c == s.nextId {
        assert t.dirs[p][name] == c;
      } else {
        assert NamedByParent(s.dirs, s.parent, c);
        var q := s.parent[c].value;
        var n :| n in s.dirs[q] && s.dirs[q][n] == c;
        assert n in t.dirs[q] && t.dirs[q][n] == c;
      }
    }
  }

  lemma AddLeafNamesDiffer(s: FsState, p: nat, name: string, isDir: bool)
    requires Tree(s) && p in s.dirs
    ensures NamesDiffer(AddLeaf(s, p, name, isDir).dirs)
  {
    hide AllNamed;
    var t := AddLeaf(s, p, name, isDir);
    forall d, n, m | d in t.dirs && n in t.dirs[d] && m in t.dirs[d] && t.dirs[d][n] == t.dirs[d][m]
      ensures n == m
    {
      if d != s.nextId && n != name && m != name {
        assert s.dirs[d][n] == s.dirs[d][m];
      } else if d == p {
        assert forall x | x in s.dirs[p] :: Entry(s.parent, p, x, s.dirs[p][x]);
      }
    }
  }

  lemma AddLeafKeepsInv(s: FsState, p: nat, name: string, isDir: bool)
    requires Inv(s) && p in s.dirs && name !in s.dirs[p] && ValidName(name)
    ensures Follows(s, AddLeaf(s, p, name, isDir))
  {
    hide TreeInv;
    AddLeafKeepsTree(s, p, name, isDir);
    NextIdIsFresh(s);
    HeldByPut(s.files, s.nextId, FileData([], 0));
  }

  lemma TruncateKeepsInv(s: FsState, id: nat)
    requires Inv(s) && id in s.files
    ensures Follows(s, Truncate(s, id))
  {
    hide TreeInv;
    FileHasTimes(s, id);
    assert Truncate(s, id).files.Keys == s.files.Keys;
    HeldByPut(s.files, id, FileData([], 0));
  }

  lemma OpenByIdKeepsInv(s: FsState, id: nat, mode: OpenMode)
    requires Inv(s) && id in s.files
    ensures Follows(s, OpenFileById(s, id, mode).0)
  {
    if mode.truncate {
      TruncateKeepsInv(s, id);
    }
  }

  lemma WriteFileCases(s: FsState, id: nat, offset: nat, data: seq<byte>, held: nat)
    requires id in s.files && id in s.times && data != []
    requires var need := BlocksFor(Max(|s.files[id].bytes|, offset + |data|), s.blockSize);
             held == Min(need, s.files[id].held + s.free)
    ensures var need := BlocksFor(Max(|s.files[id].bytes|, offset + |data|), s.blockSize);
            WriteFile(s, id, offset, data) ==
            if need <= s.files[id].held + s.free then (Lay(Resize(s, id, held), id, offset, data), Success(|data|))
            else (Resize(s, id, held), Failure(OutOfMemory))
  {
  }

  lemma WriteFileKeepsInv(s: FsState, id: nat, offset: nat, data: seq<byte>)
    requires Inv(s) && id in s.files
    ensures Follows(s, WriteFile(s, id, offset, data).0)
  {
    hide TreeInv, SpaceInv;
    FileHasTimes(s, id);
    if data != [] {
      WriteFileKeepsSpace(s, id, offset, data);
      assert WriteFile(s, id, offset, data).0.files.Keys == s.files.Keys;
    }
  }

  lemma WriteFileKeepsSpace(s: FsState, id: nat, offset: nat, data: seq<byte>)
    requires SpaceInv(s) && id in s.files && id in s.times && data != []
    ensures SpaceInv(WriteFile(s, id, offset, data).0)
  {
    hide Fits;
    var f := s.files[id];
    var n := Max(|f.bytes|, offset + |data|);
    var need := BlocksFor(n, s.blockSize);
    if need <= f.held + s.free {
      ResizeKeepsTotal(s, id, need);
      var t := Resize(s, id, need);
      var g := FileData(Overwrite(f.bytes, offset, data), need);
      HeldByPut(t.files, id, g);
      EnoughBlocksFit(g, s.blockSize);
    } else {
      ResizeKeepsTotal(s, id, f.held + s.free);
      MoreBlocksFit(f, f.held + s.free, s.blockSize);
    }
  }

  lemma EnoughBlocksFit(f: FileData, blockSize: pos)
    requires f.held == BlocksFor(|f.bytes|, blockSize)
    ensures Fits(f, blockSize)
  {
    BlocksForCovers(|f.bytes|, blockSize);
  }

  lemma MoreBlocksFit(f: FileData, held: nat, blockSize: pos)
    requires Fits(f, blockSize) && f.held <= held
    ensures Fits(f.(held := held), blockSize)
  {
    assert f.held * blockSize <= held * blockSize;
  }

  lemma ResizeKeepsTotal(s: FsState, id: nat, held: nat)
    requires id in s.files && held <= s.files[id].held + s.free
    ensures Resize(s, id, held).free + HeldBy(Resize(s, id, held).files) == s.free + HeldBy(s.files)
  {
    HeldByPut(s.files, id, s.files[id].(held := held));
  }

  lemma DropLeafKeepsTree(s: FsState, p: nat, name: string, id: nat)
    requires Tree(s) && p in s.dirs && name in s.dirs[p] && s.dirs[p][name] == id
    requires id in s.dirs ==> s.dirs[id] == map[]
    ensures Tree(DropLeaf(s, p, name, id))
  {
    hide AllNamed, NamesDiffer, DropLeaf;
    assert Entry(s.parent, p, name, id);
    DropLeafKeys(s, p, name, id);
    DropLeafAllNamed(s, p, name, id);
    DropLeafNamesDiffer(s, p, name, id);
    DropLeafLinksBack(s, p, name, id);
  }

  lemma DropLeafNamesDiffer(s: FsState, p: nat, name: string, id: nat)
    requires Tree(s) && p in s.dirs
    ensures NamesDiffer(DropLeaf(s, p, name, id).dirs)
  {
    hide AllNamed, EntriesLinkBack;
    var t := DropLeaf(s, p, name, id);
    forall d, n, m | d in t.dirs && n in t.dirs[d] && m in t.dirs[d] && t.dirs[d][n] == t.dirs[d][m]
      ensures n == m
    {
      assert s.dirs[d][n] == s.dirs[d][m];
    }
  }

  lemma DropLeafLinksBack(s: FsState, p: nat, name: string, id: nat)
    requires Tree(s) && p in s.dirs && name in s.dirs[p] && s.dirs[p][name] == id
    ensures var t := DropLeaf(s, p, name, id); EntriesLinkBack(t.dirs, t.parent)
  {
    hide AllNamed;
    var t := DropLeaf(s, p, name, id);
    assert Entry(s.parent, p, name, id);
    forall d, n | d in t.dirs && n in t.dirs[d]
      ensures Entry(t.parent, d, n, t.dirs[d][n])
    {
      assert Entry(s.parent, d, n, s.dirs[d][n]);
      assert s.dirs[d][n] == id ==> d == p && n == name;
    }
  }

  lemma DropLeafAllNamed(s: FsState, p: nat, name: string, id: nat)
    requires Tree(s) && p in s.dirs && name in s.dirs[p] && s.dirs[p][name] == id
    requires id in s.dirs ==> s.dirs[id] == map[]
    ensures var t := DropLeaf(s, p, name, id); AllNamed(t.dirs, t.parent)
  {
    var t := DropLeaf(s, p, name, id);
    forall c | c in t.parent && c != ROOT
      ensures NamedByParent(t.dirs, t.parent, c)
    {
      assert NamedByParent(s.dirs, s.parent, c);
      var q := s.parent[c].value;
      var n :| n in s.dirs[q] && s.dirs[q][n] == c;
      assert n in t.dirs[q] && t.dirs[q][n] == c;
    }
  }

  lemma DropLeafKeepsInv(s: FsState, p: nat, name: string, id: nat)
    requires Inv(s) && p in s.dirs && name in s.dirs[p] && s.dirs[p][name] == id
    requires id in s.dirs ==> s.dirs[id] == map[]
    ensures Follows(s, DropLeaf(s, p, name, id))
  {
    hide TreeInv;
    DropLeafKeepsTree(s, p, name, id);
    ChildIsNode(s, p, name);
    if id in s.files {
      HeldByRemove(s.files, id);
    } else {
      assert s.files - {id} == s.files;
    }
  }

  lemma OpenKeepsInv(s: FsState, path: string, mode: OpenMode)
    requires Inv(s)
    ensures Follows(s, Open(s, path, mode).0)
  {
    var found := ResolvePath(s.dirs, path);
    if (mode.read || mode.write) && found.Success? && found.value in s.files {
      OpenByIdKeepsInv(s, found.value, mode);
    } else if (mode.read || mode.write) && found.Failure? && mode.create {
      var parent := ResolveParent(s.dirs, path);
      if parent.Success? && parent.value.0 in s.dirs {
        ResolversAgree(s.dirs, path);
        AddLeafKeepsInv(s, parent.value.0, parent.value.1, false);
        OpenByIdKeepsInv(AddLeaf(s, parent.value.0, parent.value.1, false), s.nextId, mode);
      }
    }
  }

  lemma MkdirKeepsInv(s: FsState, path: string)
    requires Inv(s)
    ensures Follows(s, Mkdir(s, path).0)
  {
    var parent := ResolveParent(s.dirs, path);
    if parent.Success? && parent.value.0 in s.dirs && parent.value.1 !in s.dirs[parent.value.0] {
      AddLeafKeepsInv(s, parent.value.0, parent.value.1, true);
    }
  }

  lemma RemoveKeepsInv(s: FsState, path: string)
    requires Inv(s)
    ensures Follows(s, Remove(s, path).0)
  {
    var parent := ResolveParent(s.dirs, path);
    if parent.Success? && parent.value.0 in s.dirs && parent.value.1 in s.dirs[parent.value.0] {
      var id := s.dirs[parent.value.0][parent.value.1];
      if id in s.dirs ==> s.dirs[id] == map[] {
        DropLeafKeepsInv(s, parent.value.0, parent.value.1, id);
      }
    }
  }

  lemma WriteKeepsInv(s: FsState, fd: int, data: seq<byte>)
    requires Inv(s)
    ensures Follows(s, Write(s, fd, data).0)
  {
    hide TreeInv, Fits, WriteFile;
    if fd in s.fds && s.fds[fd].inode in s.files {
      var f := s.fds[fd];
      FileHasTimes(s, f.inode);
      WriteFileKeepsDescriptors(s, f.inode, if f.mode.append then |s.files[f.inode].bytes| else f.offset, data);
      var offset := if f.mode.append then |s.files[f.inode].bytes| else f.offset;
      WriteFileKeepsInv(s, f.inode, offset, data);
    }
  }

  // ---------------------------------------------------------------- the namespace is a tree

  lemma {:induction false} WalkSnoc(dirs: Dirs, from: nat, ts: seq<string>, t: string)
    ensures Walk(dirs, from, ts + [t]) ==
            var w := Walk(dirs, from, ts);
            if w.Failure? || w.value !in dirs || t !in dirs[w.value] then Failure(NotFound)
            else Success(dirs[w.value][t])
    decreases |ts|
  {
    if ts == [] {
      assert ts + [t] == [t];
      assert [t][1..] == [];
    } else if from in dirs && ts[0] in dirs[from] {
      assert (ts + [t])[1..] == ts[1..] + [t];
      WalkSnoc(dirs, dirs[from][ts[0]], ts[1..], t);
    }
  }

  lemma {:induction false} WalkDescends(s: FsState, from: nat, ts: seq<string>)
    requires Tree(s) && from in s.parent && Walk(s.dirs, from, ts).Success?
    ensures Walk(s.dirs, from, ts).value in s.parent
    ensures ts != [] ==> from < Walk(s.dirs, from, ts).value
    decreases |ts|
  {
    if ts != [] {
      WalkDescends(s, s.dirs[from][ts[0]], ts[1..]);
    }
  }

  /** No node has two paths. */
  lemma {:induction false} PathsAreUnique(s: FsState, p: seq<string>, q: seq<string>)
    requires Tree(s) && Walk(s.dirs, ROOT, p).Success?
    requires Walk(s.dirs, ROOT, p) == Walk(s.dirs, ROOT, q)
    ensures p == q
    decreases |p|
  {
    WalkDescends(s, ROOT, p);
    WalkDescends(s, ROOT, q);
    if p != [] && q != [] {
      var m, n := |p| - 1, |q| - 1;
      assert p == p[..m] + [p[m]] && q == q[..n] + [q[n]];
      WalkSnoc(s.dirs, ROOT, p[..m], p[m]);
      WalkSnoc(s.dirs, ROOT, q[..n], q[n]);
      PathsAreUnique(s, p[..m], q[..n]);
    }
  }

  /** Every node has a path. */
  lemma {:induction false} EveryNodeHasAPath(s: FsState, id: nat) returns (path: string)
    requires Tree(s) && id in s.parent
    ensures ResolvePath(s.dirs, path) == Success(id)
  {
    var ts := TokensTo(s, id);
    SplitUndoesPrint(ts);
    path := Print(ts);
  }

  lemma {:induction false} TokensTo(s: FsState, id: nat) returns (ts: seq<string>)
    requires Tree(s) && id in s.parent
    ensures forall i | 0 <= i < |ts| :: ValidName(ts[i])
    ensures Walk(s.dirs, ROOT, ts) == Success(id)
    decreases id
  {
    if id == ROOT {
      ts := [];
    } else {
      assert NamedByParent(s.dirs, s.parent, id);
      var p := s.parent[id].value;
      var n :| n in s.dirs[p] && s.dirs[p][n] == id;
      var up := TokensTo(s, p);
      WalkSnoc(s.dirs, ROOT, up, n);
      ts := up + [n];
    }
  }

  /** Looking a path up is looking its last component up in its parent. */
  lemma ResolversAgree(dirs: Dirs, path: string)
    ensures ResolveParent(dirs, path).Success? ==>
              var (d, name) := ResolveParent(dirs, path).value;
              && ValidName(name)
              && ResolvePath(dirs, path) ==
                 if d in dirs && name in dirs[d] then Success(dirs[d][name]) else Failure(NotFound)
    ensures ResolveParent(dirs, path).Failure? ==>
              Split(path) == Success([]) || ResolvePath(dirs, path) == Failure(ResolveParent(dirs, path).error)
  {
    if Split(path).Success? && Split(path).value != [] {
      var ts := Split(path).value;
      WalkSnoc(dirs, ROOT, ts[..|ts| - 1], ts[|ts| - 1]);
      assert ts[..|ts| - 1] + [ts[|ts| - 1]] == ts;
      WalkFailsWithNotFound(dirs, ROOT, ts[..|ts| - 1]);
    }
  }

  /** A path that resolves denotes a file or a directory. */
  lemma ResolvesToNode(s: FsState, path: string)
    requires Tree(s) && ResolvePath(s.dirs, path).Success?
    ensures ResolvePath(s.dirs, path).value in s.parent
  {
    WalkDescends(s, ROOT, Split(path).value);
  }

  lemma {:induction false} WalkFailsWithNotFound(dirs: Dirs, from: nat, ts: seq<string>)
    ensures Walk(dirs, from, ts).Failure? ==> Walk(dirs, from, ts).error == NotFound
    decreases |ts|
  {
    if ts != [] && from in dirs && ts[0] in dirs[from] {
      WalkFailsWithNotFound(dirs, dirs[from][ts[0]], ts[1..]);
    }
  }

  lemma {:induction false} AddLeafWalk(s: FsState, q: seq<string>, name: string, isDir: bool, ts: seq<string>)
    requires Tree(s) && Walk(s.dirs, ROOT, q).Success?
    requires Walk(s.dirs, ROOT, q).value in s.dirs && name !in s.dirs[Walk(s.dirs, ROOT, q).value]
    ensures Walk(AddLeaf(s, Walk(s.dirs, ROOT, q).value, name, isDir).dirs, ROOT, ts) ==
            if ts == q + [name] then Success(s.nextId) else Walk(s.dirs, ROOT, ts)
    decreases |ts|
  {
    hide AllNamed, NamesDiffer, EntriesLinkBack;
    var t := AddLeaf(s, Walk(s.dirs, ROOT, q).value, name, isDir);
    if ts != [] {
      var u, x := ts[..|ts| - 1], ts[|ts| - 1];
      assert ts == u + [x];
      WalkSnoc(s.dirs, ROOT, u, x);
      WalkSnoc(t.dirs, ROOT, u, x);
      WalkSnoc(s.dirs, ROOT, q, name);
      AddLeafWalk(s, q, name, isDir, u);
      if Walk(s.dirs, ROOT, u).Success? {
        WalkDescends(s, ROOT, u);
        if Walk(s.dirs, ROOT, u) == Walk(s.dirs, ROOT, q) {
          PathsAreUnique(s, q, u);
        }
      }
    }
  }

  lemma {:induction false} DropLeafWalk(s: FsState, q: seq<string>, name: string, ts: seq<string>)
    requires Tree(s) && Walk(s.dirs, ROOT, q).Success?
    requires Walk(s.dirs, ROOT, q).value in s.dirs && name in s.dirs[Walk(s.dirs, ROOT, q).value]
    requires var id := s.dirs[Walk(s.dirs, ROOT, q).value][name]; id in s.dirs ==> s.dirs[id] == map[]
    ensures var d := Walk(s.dirs, ROOT, q).value;
            Walk(DropLeaf(s, d, name, s.dirs[d][name]).dirs, ROOT, ts) ==
            if ts == q + [name] then Failure(NotFound) else Walk(s.dirs, ROOT, ts)
    decreases |ts|
  {
    hide AllNamed, NamesDiffer, EntriesLinkBack;
    var d := Walk(s.dirs, ROOT, q).value;
    var t := DropLeaf(s, d, name, s.dirs[d][name]);
    if ts != [] {
      var u, x := ts[..|ts| - 1], ts[|ts| - 1];
      assert ts == u + [x];
      WalkSnoc(s.dirs, ROOT, u, x);
      WalkSnoc(t.dirs, ROOT, u, x);
      WalkSnoc(s.dirs, ROOT, q, name);
      DropLeafWalk(s, q, name, u);
      if Walk(s.dirs, ROOT, u).Success? {
        WalkDescends(s, ROOT, u);
        if Walk(s.dirs, ROOT, u) == Walk(s.dirs, ROOT, q) {
          PathsAreUnique(s, q, u);
        } else if Walk(s.dirs, ROOT, u) == Walk(s.dirs, ROOT, q + [name]) {
          PathsAreUnique(s, q + [name], u);
        }
      }
    }
  }

  /** Path `p` means something else in `after` than in `before` only if it splits like `path`. */
  ghost predicate ChangesOnly(before: Dirs, after: Dirs, path: string) {
    forall p: string | Split(p) != Split(path) :: ResolvePath(after, p) == ResolvePath(before, p)
  }

  /** Creating a file by opening it makes exactly that path resolve, to a fresh inode. */
  lemma OpenCreatesOnePath(s: FsState, path: string, mode: OpenMode)
    requires Inv(s)
    ensures var (t, r) := Open(s, path, mode);
            && (r.Success? && ResolvePath(s.dirs, path).Failure? ==>
                  && ResolvePath(t.dirs, path) == Success(s.nextId)
                  && ChangesOnly(s.dirs, t.dirs, path))
            && (r.Failure? || ResolvePath(s.dirs, path).Success? ==> t.dirs == s.dirs)
            && r != Failure(AlreadyExists)
  {
    hide AllNamed, NamesDiffer, EntriesLinkBack;
    var (t, r) := Open(s, path, mode);
    SplitErrors(path);
    if Split(path).Success? {
      WalkFailsWithNotFound(s.dirs, ROOT, Split(path).value);
    }
    ResolversAgree(s.dirs, path);
    if r.Success? && ResolvePath(s.dirs, path).Failure? {
      var ts := Split(path).value;
      var q, name := ts[..|ts| - 1], ts[|ts| - 1];
      assert ts == q + [name];
      AddLeafWalk(s, q, name, false, ts);
      forall p: string | Split(p) != Split(path)
        ensures ResolvePath(t.dirs, p) == ResolvePath(s.dirs, p)
      {
        if Split(p).Success? {
          AddLeafWalk(s, q, name, false, Split(p).value);
        }
      }
    }
  }

  lemma SplitErrors(path: string)
    ensures Split(path).Failure? ==> Split(path).error == InvalidArgument
  {
  }

  /** A directory is created exactly when its path is free and its parent is a directory. */
  lemma MkdirCreatesOnePath(s: FsState, path: string)
    requires Inv(s)
    ensures var (t, r) := Mkdir(s, path);
            && (r.Success? ==>
                  && ResolvePath(s.dirs, path) == Failure(NotFound)
                  && ResolvePath(t.dirs, path) == Success(s.nextId)
                  && t.dirs[s.nextId] == map[]
                  && ChangesOnly(s.dirs, t.dirs, path))
            && (r.Failure? ==> t == s)
            && (r == Failure(AlreadyExists) <==> ResolvePath(s.dirs, path).Success? && Split(path) != Success([]))
  {
    hide AllNamed, NamesDiffer, EntriesLinkBack;
    var (t, r) := Mkdir(s, path);
    SplitErrors(path);
    ResolversAgree(s.dirs, path);
    if Split(path).Success? {
      var ts := Split(path).value;
      if ts != [] {
        WalkFailsWithNotFound(s.dirs, ROOT, ts[..|ts| - 1]);
      }
      if r.Success? {
        var q, name := ts[..|ts| - 1], ts[|ts| - 1];
        assert ts == q + [name];
        AddLeafWalk(s, q, name, true, ts);
        forall p: string | Split(p) != Split(path)
          ensures ResolvePath(t.dirs, p) == ResolvePath(s.dirs, p)
        {
          if Split(p).Success? {
            AddLeafWalk(s, q, name, true, Split(p).value);
          }
        }
      }
    }
  }

  /** Removing makes exactly that path stop resolving. */
  lemma RemoveDeletesOnePath(s: FsState, path: string)
    requires Inv(s)
    ensures var (t, r) := Remove(s, path);
            && (r.Success? ==>
                  && ResolvePath(s.dirs, path).Success?
                  && ResolvePath(t.dirs, path) == Failure(NotFound)
                  && ChangesOnly(s.dirs, t.dirs, path)
                  && s.parent.Keys == t.parent.Keys + {ResolvePath(s.dirs, path).value})
            && (r.Failure? ==> t == s)
  {
    hide AllNamed, NamesDiffer, SpaceInv, FdInv;
    var (t, r) := Remove(s, path);
    ResolversAgree(s.dirs, path);
    if r.Success? {
      var ts := Split(path).value;
      var q, name := ts[..|ts| - 1], ts[|ts| - 1];
      assert ts == q + [name];
      WalkSnoc(s.dirs, ROOT, q, name);
      DropLeafWalk(s, q, name, ts);
      forall p: string | Split(p) != Split(path)
        ensures ResolvePath(t.dirs, p) == ResolvePath(s.dirs, p)
      {
        if Split(p).Success? {
          DropLeafWalk(s, q, name, Split(p).value);
        }
      }
    }
  }

  // ---------------------------------------------------------------- file contents

  /** After an out-of-memory write every byte of every file and every path is as before. */
  lemma FailedWriteIsInvisible(s: FsState, fd: int, data: seq<byte>)
    requires Inv(s) && Write(s, fd, data).1.Failure?
    ensures var t := Write(s, fd, data).0;
            && t.files.Keys == s.files.Keys
            && (forall id | id in s.files :: t.files[id].bytes == s.files[id].bytes)
            && t.dirs == s.dirs && t.parent == s.parent && t.times == s.times && t.fds == s.fds
            && t.free + HeldBy(t.files) == s.free + HeldBy(s.files)
  {
    hide TreeInv;
    WriteKeepsInv(s, fd, data);
  }

  /** A successful non-empty write leaves the file exactly the blocks its size needs. */
  lemma WriteTrims(s: FsState, fd: int, data: seq<byte>)
    requires Inv(s) && data != [] && Write(s, fd, data).1.Success?
    ensures var f := Write(s, fd, data).0.files[s.fds[fd].inode];
            f.held == BlocksFor(|f.bytes|, s.blockSize)
    ensures Write(s, fd, data).1.value == |data|
  {
  }

  lemma OverwriteTwice(b: seq<byte>, offset: nat, d: seq<byte>, e: seq<byte>)
    ensures Overwrite(Overwrite(b, offset, d), offset + |d|, e) == Overwrite(b, offset, d + e)
  {
  }

  /** Two writes in a row through one descriptor are one write of the joined data. */
  lemma WritesConcatenate(s: FsState, id: nat, offset: nat, d: seq<byte>, e: seq<byte>)
    requires Inv(s) && id in s.files && d != [] && e != []
    ensures var (t, r) := WriteFile(s, id, offset, d);
            var (u, q) := WriteFile(t, id, offset + |d|, e);
            var (v, p) := WriteFile(s, id, offset, d + e);
            && (p.Success? <==> r.Success? && q.Success?)
            && (p.Success? ==> u.files == v.files && u.free == v.free)
  {
    var f := s.files[id];
    OverwriteTwice(f.bytes, offset, d, e);
    BlocksForMonotone(Max(|f.bytes|, offset + |d|), Max(|f.bytes|, offset + |d + e|), s.blockSize);
  }

  /** What was written through one descriptor is read back through any other at that offset. */
  lemma ReadReturnsWhatWasWritten(s: FsState, w: int, r: int, data: seq<byte>, n: nat)
    requires Inv(s) && Write(s, w, data).1.Success? && n <= |data|
    requires r in s.fds && r != w && s.fds[r].mode.read && s.fds[r].inode == s.fds[w].inode
    requires s.fds[r].offset ==
             if s.fds[w].mode.append then |s.files[s.fds[w].inode].bytes| else s.fds[w].offset
    ensures Read(Write(s, w, data).0, r, n).1 == Success(data[..n])
  {
    if data != [] {
      var t := Write(s, w, data).0;
      var bytes := t.files[s.fds[w].inode].bytes;
      var o := s.fds[r].offset;
      assert bytes[o..Min(|bytes|, o + n)] == data[..n];
    }
  }

  /** Reading in two steps is reading at once. */
  lemma ReadsConcatenate(s: FsState, fd: int, m: nat, n: nat)
    requires Read(s, fd, m).1.Success?
    ensures var (t, a) := Read(s, fd, m);
            var (u, b) := Read(t, fd, n);
            b.Success? && Read(s, fd, m + n) == (u, Success(a.value + b.value))
  {
    var (t, a) := Read(s, fd, m);
    var (u, b) := Read(t, fd, n);
    var f := s.fds[fd];
    var bytes := s.files[f.inode].bytes;
    if f.offset < |bytes| {
      assert bytes[f.offset..Min(|bytes|, f.offset + m + n)] == a.value + b.value;
    }
    assert u.fds == Read(s, fd, m + n).0.fds;
  }

  // ---------------------------------------------------------------- whole runs

  datatype Op =
    | DoOpen(path: string, mode: OpenMode)
    | DoRead(fd: int, n: nat)
    | DoWrite(fd: int, data: seq<byte>)
    | DoClose(fd: int)
    | DoMkdir(path: string)
    | DoRemove(path: string)

  datatype Out =
    | Opened(fd: Result<int>)
    | GotBytes(bytes: Result<seq<byte>>)
    | Wrote(count: Result<nat>)
    | Finished(status: Result<()>)

  function Step(s: FsState, op: Op): (r: (FsState, Out))
    requires Inv(s)
  {
    match op
    case DoOpen(path, mode) => var (t, r) := Open(s, path, mode); (t, Opened(r))
    case DoRead(fd, n) => var (t, r) := Read(s, fd, n); (t, GotBytes(r))
    case DoWrite(fd, data) => var (t, r) := Write(s, fd, data); (t, Wrote(r))
    case DoClose(fd) => var (t, r) := Close(s, fd); (t, Finished(r))
    case DoMkdir(path) => var (t, r) := Mkdir(s, path); (t, Finished(r))
    case DoRemove(path) => var (t, r) := Remove(s, path); (t, Finished(r))
  }

  /** Every operation keeps the tree, the descriptor table and the block count consistent. */
  lemma StepKeepsInv(s: FsState, op: Op)
    requires Inv(s)
    ensures Follows(s, Step(s, op).0)
  {
    match op
    case DoOpen(path, mode) => OpenKeepsInv(s, path, mode);
    case DoRead(fd, n) => ReadKeepsInv(s, fd, n);
    case DoWrite(fd, data) => WriteKeepsInv(s, fd, data);
    case DoClose(fd) => CloseKeepsInv(s, fd);
    case DoMkdir(path) => MkdirKeepsInv(s, path);
    case DoRemove(path) => RemoveKeepsInv(s, path);
  }

  /** The state and the answers after a list of operations. */
  function Run(s: FsState, ops: seq<Op>): (r: (FsState, seq<Out>))
    requires Inv(s)
    ensures Inv(r.0) && |r.1| == |ops|
    ensures r.0.total == s.total && r.0.blockSize == s.blockSize
    decreases |ops|
  {
    if ops == [] then (s, [])
    else
      StepKeepsInv(s, ops[0]);
      var (t, out) := Step(s, ops[0]);
      var (u, outs) := Run(t, ops[1..]);
      (u, [out] + outs)
  }

  /** An operation that may change or delete file `id`. */
  ghost predicate Touches(s: FsState, op: Op, id: nat) {
    match op
    case DoOpen(path, mode) => mode.truncate && ResolvePath(s.dirs, path) == Success(id)
    case DoWrite(fd, _) => fd in s.fds && s.fds[fd].inode == id
    case DoRemove(path) => ResolvePath(s.dirs, path) == Success(id)
    case _ => false
  }

  lemma UntouchedFileStays(s: FsState, op: Op, id: nat)
    requires Inv(s) && id in s.files && !Touches(s, op, id)
    ensures id in Step(s, op).0.files && Step(s, op).0.files[id].bytes == s.files[id].bytes
  {
    hide Inv;
    match op
    case DoOpen(path, mode) => OpenLeavesOthers(s, path, mode, id);
    case DoRead(fd, n) =>
    case DoWrite(fd, data) =>
    case DoClose(fd) =>
    case DoMkdir(path) =>
    case DoRemove(path) => RemoveLeavesOthers(s, path, id);
  }

  lemma OpenLeavesOthers(s: FsState, path: string, mode: OpenMode, id: nat)
    requires Inv(s) && id in s.files && !(mode.truncate && ResolvePath(s.dirs, path) == Success(id))
    ensures var t := Open(s, path, mode).0; id in t.files && t.files[id].bytes == s.files[id].bytes
  {
    hide Inv, TreeInv;
    NextIdIsFresh(s);
  }

  lemma RemoveLeavesOthers(s: FsState, path: string, id: nat)
    requires Inv(s) && id in s.files && ResolvePath(s.dirs, path) != Success(id)
    ensures var t := Remove(s, path).0; id in t.files && t.files[id].bytes == s.files[id].bytes
  {
    hide Inv;
    ResolversAgree(s.dirs, path);
  }

  ghost predicate NeverTouched(s: FsState, ops: seq<Op>, id: nat)
    requires Inv(s)
    decreases |ops|
  {
    ops == [] ||
    (StepKeepsInv(s, ops[0]);
     !Touches(s, ops[0], id) && NeverTouched(Step(s, ops[0]).0, ops[1..], id))
  }

  /** Over a whole run a file changes only by writes to it, truncating opens of it or its removal. */
  lemma {:induction false} RunLeavesOtherFilesAlone(s: FsState, ops: seq<Op>, id: nat)
    requires Inv(s) && id in s.files && NeverTouched(s, ops, id)
    ensures id in Run(s, ops).0.files && Run(s, ops).0.files[id].bytes == s.files[id].bytes
    decreases |ops|
  {
    if ops != [] {
      UntouchedFileStays(s, ops[0], id);
      StepKeepsInv(s, ops[0]);
      RunLeavesOtherFilesAlone(Step(s, ops[0]).0, ops[1..], id);
    }
  }

  /** In every reachable state free and held blocks add up to the whole disk. */
  lemma BlocksAreConserved(s: FsState, ops: seq<Op>)
    requires Inv(s)
    ensures Run(s, ops).0.free + HeldBy(Run(s, ops).0.files) == s.total
  {
  }
}
