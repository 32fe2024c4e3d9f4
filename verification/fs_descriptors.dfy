/** The table of open files; handles are handed out in increasing order and never reused. */
module Descriptors {
  import opened Core

  /** The open-mode bit flags. */
  datatype OpenMode = OpenMode(read: bool, write: bool, create: bool, truncate: bool, append: bool)

  datatype OpenFile = OpenFile(inode: nat, offset: nat, mode: OpenMode)

  class FileDescriptorTable {
    var entries: map<int, OpenFile>
    var nextFd: nat

    ghost predicate Valid()
      reads this
    {
      forall fd | fd in entries :: 0 <= fd < nextFd
    }

    constructor ()
      ensures Valid()
      ensures entries == map[] && nextFd == 0
    {
      entries, nextFd := map[], 0;
    }

    /** The new handle is one that no earlier call has returned. */
    method Open(state: OpenFile) returns (fd: int)
      requires Valid()
      modifies this
      ensures Valid()
      ensures fd == old(nextFd) && fd !in old(entries)
      ensures entries == old(entries)[fd := state] && nextFd == old(nextFd) + 1
    {
      fd := nextFd;
      nextFd := nextFd + 1;
      entries := entries[fd := state];
    }

    method Close(fd: int) returns (r: Result<()>)
      requires Valid()
      modifies this
      ensures Valid()
      ensures r == if fd in old(entries) then Success(()) else Failure(NotFound)
      ensures entries == old(entries) - {fd} && nextFd == old(nextFd)
    {
      if fd !in entries {
        return Failure(NotFound);
      }
      entries := entries - {fd};
      return Success(());
    }

    method Get(fd: int) returns (r: Result<OpenFile>)
      ensures r == if fd in entries then Success(entries[fd]) else Failure(NotFound)
    {
      if fd !in entries {
        return Failure(NotFound);
      }
      return Success(entries[fd]);
    }

    method Set(fd: int, state: OpenFile) returns (r: Result<()>)
      requires Valid()
      modifies this
      ensures Valid()
      ensures r == if fd in old(entries) then Success(()) else Failure(NotFound)
      ensures entries == (if fd in old(entries) then old(entries)[fd := state] else old(entries))
      ensures nextFd == old(nextFd)
    {
      if fd !in entries {
        return Failure(NotFound);
      }
      entries := entries[fd := state];
      return Success(());
    }
  }
}
