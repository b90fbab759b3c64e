/**
 * FsContext: the class behind the C API (src/c_api/fs_context.cpp). Every
 * method is one atomic step under the class's mutex and is proved to be the
 * step of FsState; the tables it iterates over are visited in any order.
 */
module FsContexts {
  import opened Bytes
  import opened MountTable
  import opened FsState
  import opened FsRuns
  import FH = FileHandles

  class FsContext {
    var mounts: Mounts
    var fdTable: map<int, FdEntry>
    var dirTable: map<int, DirState>
    var compatHandle: int
    var nextHandle: int
    var nextFd: int
    var nextDirId: int
    var errno: Errno

    constructor ()
      ensures Valid() && State() == Initial()
    {
      mounts, fdTable, dirTable := map[], map[], map[];
      compatHandle, nextHandle, nextFd, nextDirId := -1, 0, 1, 1;
      errno := OK;
    }

    ghost function State(): Context
      reads this
    {
      Context(mounts, fdTable, dirTable, compatHandle, nextHandle, nextFd, nextDirId, errno)
    }

    ghost predicate Valid()
      reads this
    {
      Invariant(State())
    }

    // ---- helpers ----------------------------------------------------------------

    /** find_mount: the owner of the path, -1 for none. */
    method FindMount(path: string) returns (best: int)
      requires Valid()
      ensures best == Owner(mounts, path)
      ensures best != -1 ==> best in mounts
    {
      best := -1;
      var rest := mounts.Keys;
      while rest != {}
        invariant rest <= mounts.Keys
        invariant best == -1 || (Matches(mounts, path, best) && best !in rest)
        invariant forall h :: Matches(mounts, path, h) && h !in rest ==>
          best != -1 && |mounts[h].mountPoint| <= |mounts[best].mountPoint|
        decreases |rest|
      {
        SomeMember(rest);
        var h :| h in rest;
        rest := rest - {h};
        if PathIsInMount(path, mounts[h].mountPoint) {
          if best == -1 || |mounts[h].mountPoint| > |mounts[best].mountPoint| {
            best := h;
          }
        }
      }
      OwnerIsBest(mounts, path);
      assert best != -1 ==> Best(mounts, path, best);
    }

    method MountPointTaken(point: string) returns (taken: bool)
      ensures taken == PointTaken(mounts, point)
    {
      var rest := mounts.Keys;
      while rest != {}
        invariant rest <= mounts.Keys
        invariant forall h :: h in mounts && h !in rest ==> mounts[h].mountPoint != point
        decreases |rest|
      {
        SomeMember(rest);
        var h :| h in rest;
        rest := rest - {h};
        if mounts[h].mountPoint == point { return true; }
      }
      return false;
    }

    /** allocate_fd: steps over taken numbers, wrapping only while it steps. */
    method AllocateFd() returns (fd: int)
      requires nextFd >= 1 && HasRoom(fdTable, nextFd)
      modifies this`nextFd
      ensures fd == NextFree(fdTable, old(nextFd)) && nextFd == fd + 1
    {
      ghost var from := nextFd;
      ghost var wrapped := false;
      while nextFd in fdTable
        invariant nextFd >= 1 && HasRoom(fdTable, nextFd)
        invariant wrapped ==> Wrapped(fdTable, from, nextFd)
        invariant !wrapped ==> nextFd == from || (from < nextFd <= FD_MAX && forall k :: from <= k < nextFd ==> k in fdTable)
        decreases !wrapped, FD_MAX - nextFd
      {
        NoRoomNoEnd(fdTable, nextFd);
        if wrapped && nextFd == FD_MAX {
          AllTaken(fdTable, nextFd);
        }
        nextFd := nextFd + 1;
        if nextFd > FD_MAX {
          nextFd := 1;
          wrapped := true;
        }
      }
      fd := nextFd;
      NextFreeIsUnique(fdTable, from, fd, NextFree(fdTable, from));
      nextFd := nextFd + 1;
    }

    method InsertMount(fs: Backend, point: string) returns (rc: int, handle: int)
      requires Valid() && !PointTaken(mounts, point)
      modifies this`nextHandle, this`mounts, this`errno
      ensures rc == 0 && handle == old(nextHandle)
      ensures State() == old(State()).(
        mounts := old(mounts)[old(nextHandle) := Mount(old(nextHandle), point, fs)], nextHandle := old(nextHandle) + 1, errno := OK)
    {
      handle := nextHandle;
      nextHandle := nextHandle + 1;
      mounts := mounts[handle := Mount(handle, point, fs)];
      errno := OK;
      return 0, handle;
    }

    /** The common end of the three locked bodies: mount the backend the factory made. */
    method Finish(made: Made, point: string) returns (rc: int, handle: int)
      requires Valid() && !PointTaken(mounts, point)
      modifies this`nextHandle, this`mounts, this`errno
      ensures rc == 0 <==> FromMade(made).Got?
      ensures rc == 0 ==> handle == old(nextHandle)
      ensures FromMade(made).Got? ==> State() == old(State()).(
        mounts := old(mounts)[old(nextHandle) := Mount(old(nextHandle), point, FromMade(made).value)],
        nextHandle := old(nextHandle) + 1, errno := OK)
      ensures FromMade(made).Refused? ==> State() == old(State()).(errno := FromMade(made).errno)
    {
      match made {
        case NoBackend(unsupported) =>
          errno := if unsupported then ENOTSUP else EINVAL;
          return -1, -1;
        case MountFails =>
          errno := EIO;
          return -1, -1;
        case Ready(fs) =>
          rc, handle := InsertMount(fs, point);
      }
    }

    method MountFromFileLocked(w: World, path: string, point: string) returns (rc: int, handle: int)
      requires Valid()
      modifies this`nextHandle, this`mounts, this`errno
      ensures MountOutcome(old(State()), State(), MountLocked(old(State()), w, WholeFile(path), point), rc, handle)
    {
      var taken := MountPointTaken(point);
      if taken {
        errno := EEXIST;
        return -1, -1;
      }
      rc, handle := Finish(w.fromFile(path, point), point);
    }

    method MountFromFileAtLocked(w: World, path: string, offset: u64, length: u64, point: string)
      returns (rc: int, handle: int)
      requires Valid()
      modifies this`nextHandle, this`mounts, this`errno
      ensures MountOutcome(old(State()), State(), MountLocked(old(State()), w, Region(path, offset, length), point), rc, handle)
    {
      var taken := MountPointTaken(point);
      if taken {
        errno := EEXIST;
        return -1, -1;
      }
      var file := w.file(path);
      if file.Absent? {
        errno := ENOENT;
        return -1, -1;
      }
      var fileSize := SizeOf(file);
      if offset > fileSize {
        errno := EINVAL;
        return -1, -1;
      }
      var region := length;
      if region == 0 {
        region := fileSize - offset;
      } else if region > fileSize - offset {
        errno := EINVAL;
        return -1, -1;
      }
      if region == 0 || region > STREAM_MAX {
        errno := EINVAL;
        return -1, -1;
      }
      if file.Unopenable? {
        errno := ENOENT;
        return -1, -1;
      }
      if file.Unreadable? {
        errno := EIO;
        return -1, -1;
      }
      rc, handle := Finish(w.fromMemory(file.content[offset..offset + region], point), point);
    }

    method MountFromMemoryLocked(w: World, data: bytes, point: string) returns (rc: int, handle: int)
      requires Valid()
      modifies this`nextHandle, this`mounts, this`errno
      ensures MountOutcome(old(State()), State(), MountLocked(old(State()), w, Memory(data), point), rc, handle)
    {
      var taken := MountPointTaken(point);
      if taken {
        errno := EEXIST;
        return -1, -1;
      }
      rc, handle := Finish(w.fromMemory(data, point), point);
    }

    // ---- lifecycle ----------------------------------------------------------------

    method MountFromFile(w: World, path: string, point: string) returns (rc: int, handle: int)
      requires Valid()
      modifies this
      ensures Valid()
      ensures MountOutcome(old(State()), State(), Step(old(State()), MountArchive(w, WholeFile(path), point)), rc, handle)
    {
      StepKeepsInvariant(State(), MountArchive(w, WholeFile(path), point));
      if point == "" {
        errno := EINVAL;
        return -1, -1;
      }
      rc, handle := MountFromFileLocked(w, path, point);
    }

    method MountFromFileAt(w: World, path: string, offset: u64, length: u64, point: string) returns (rc: int, handle: int)
      requires Valid()
      modifies this
      ensures Valid()
      ensures MountOutcome(
        old(State()), State(), Step(old(State()), MountArchive(w, SourceAt(path, offset, length), point)), rc, handle)
    {
      StepKeepsInvariant(State(), MountArchive(w, SourceAt(path, offset, length), point));
      if point == "" {
        errno := EINVAL;
        return -1, -1;
      }
      if offset == 0 && length == 0 {
        rc, handle := MountFromFileLocked(w, path, point);
      } else {
        rc, handle := MountFromFileAtLocked(w, path, offset, length, point);
      }
    }

    method MountFromMemory(w: World, data: bytes, point: string) returns (rc: int, handle: int)
      requires Valid()
      modifies this
      ensures Valid()
      ensures MountOutcome(old(State()), State(), Step(old(State()), MountArchive(w, Memory(data), point)), rc, handle)
    {
      StepKeepsInvariant(State(), MountArchive(w, Memory(data), point));
      if point == "" {
        errno := EINVAL;
        return -1, -1;
      }
      rc, handle := MountFromMemoryLocked(w, data, point);
    }

    method InitFromFileAt(w: World, path: string, offset: u64, length: u64, point: string) returns (rc: int)
      requires Valid()
      modifies this
      ensures Valid()
      ensures State() == Step(old(State()), Init(w, SourceAt(path, offset, length), point)).0
      ensures rc == 0 <==> Step(old(State()), Init(w, SourceAt(path, offset, length), point)).1.NewHandle?
    {
      StepKeepsInvariant(State(), Init(w, SourceAt(path, offset, length), point));
      if mounts.Keys != {} {
        errno := EEXIST;
        return -1;
      }
      var handle;
      if offset == 0 && length == 0 {
        rc, handle := MountFromFileLocked(w, path, point);
      } else {
        rc, handle := MountFromFileAtLocked(w, path, offset, length, point);
      }
      if rc == 0 {
        compatHandle := handle;
      }
    }

    method InitFromMemory(w: World, data: bytes, point: string) returns (rc: int)
      requires Valid()
      modifies this
      ensures Valid()
      ensures State() == Step(old(State()), Init(w, Memory(data), point)).0
      ensures rc == 0 <==> Step(old(State()), Init(w, Memory(data), point)).1.NewHandle?
    {
      StepKeepsInvariant(State(), Init(w, Memory(data), point));
      if mounts.Keys != {} {
        errno := EEXIST;
        return -1;
      }
      var handle;
      rc, handle := MountFromMemoryLocked(w, data, point);
      if rc == 0 {
        compatHandle := handle;
      }
    }

    /** Erases one mount's descriptors while iterating over the table. */
    method EraseFds(handle: int)
      modifies this`fdTable
      ensures fdTable == FdsExcept(old(fdTable), handle)
    {
      var rest := fdTable.Keys;
      while rest != {}
        invariant rest <= fdTable.Keys
        invariant forall k :: k in fdTable <==> k in old(fdTable) && (k in rest || old(fdTable)[k].owner != handle)
        invariant forall k :: k in fdTable ==> fdTable[k] == old(fdTable)[k]
        decreases |rest|
      {
        SomeMember(rest);
        var k :| k in rest;
        rest := rest - {k};
        if fdTable[k].owner == handle {
          fdTable := fdTable - {k};
        }
      }
      AllErased(old(fdTable), fdTable, handle);
    }

    method EraseDirs(handle: int)
      modifies this`dirTable
      ensures dirTable == DirsExcept(old(dirTable), handle)
    {
      var rest := dirTable.Keys;
      while rest != {}
        invariant rest <= dirTable.Keys
        invariant forall k :: k in dirTable <==> k in old(dirTable) && (k in rest || old(dirTable)[k].owner != handle)
        invariant forall k :: k in dirTable ==> dirTable[k] == old(dirTable)[k]
        decreases |rest|
      {
        SomeMember(rest);
        var k :| k in rest;
        rest := rest - {k};
        if dirTable[k].owner == handle {
          dirTable := dirTable - {k};
        }
      }
      AllDirsErased(old(dirTable), dirTable, handle);
    }

    /** unmount_handle: two erasing loops, then the mount itself. */
    method UnmountHandle(handle: int) returns (rc: int)
      requires Valid()
      modifies this
      ensures Valid()
      ensures State() == Step(old(State()), Call.UnmountHandle(handle)).0
      ensures rc == 0 <==> handle in old(mounts)
    {
      hide Distinct, FdsExcept, DirsExcept;
      StepKeepsInvariant(State(), Call.UnmountHandle(handle));
      if handle !in mounts {
        errno := ENODEV;
        return -1;
      }
      EraseFds(handle);
      EraseDirs(handle);
      mounts := mounts - {handle};
      if compatHandle == handle {
        compatHandle := -1;
      }
      errno := OK;
      return 0;
    }

    method UnmountAll()
      requires Valid()
      modifies this
      ensures Valid()
      ensures State() == Step(old(State()), Unmount).0
    {
      mounts, fdTable, dirTable := map[], map[], map[];
      nextFd, nextDirId, compatHandle := 1, 1, -1;
    }

    // ---- files ------------------------------------------------------------------

    /** open: the external descriptor, or -1. Needs a free descriptor number, without which the call does not return. */
    method Open(path: string, readOnly: bool) returns (fd: int)
      requires Valid() && HasRoom(fdTable, nextFd)
      modifies this
      ensures Valid()
      ensures var (after, reply) := Step(old(State()), Call.Open(path, readOnly));
        State() == after && fd == if reply.NewFd? then reply.fd else -1
    {
      hide Distinct, HasFlag, NextFree, HasRoom;
      StepKeepsInvariant(State(), Call.Open(path, readOnly));
      if mounts.Keys == {} {
        errno := ENODEV;
        return -1;
      }
      if !readOnly {
        errno := EROFS;
        return -1;
      }
      var mount := FindMount(path);
      if mount == -1 {
        errno := ENOENT;
        return -1;
      }
      var result := mounts[mount].fs.open(path);
      if result.Refused? {
        errno := result.errno;
        return -1;
      }
      var internal := AllocateFd();
      fdTable := fdTable[internal := FdEntry(FH.Handle(result.value, 0), true, mounts[mount].handle)];
      errno := OK;
      return WithFlag(internal);
    }

    /** lookup_fd: the table key behind an external descriptor, -1 for none. */
    method Lookup(fd: int) returns (k: int)
      requires Valid()
      ensures if k == -1 then LookupFd(State(), fd) == FH.None else LookupFd(State(), fd) == FH.Some(k) && k in fdTable
    {
      if !HasFlag(fd) { return -1; }
      k := WithoutFlag(fd);
      if k !in fdTable { return -1; }
    }

    method Read(fd: int, count: nat, grant: FH.Option<nat>) returns (n: int, data: bytes)
      requires Valid()
      modifies this
      ensures Valid()
      ensures var (after, reply) := Step(old(State()), Call.Read(fd, count, grant));
        State() == after && if reply.Data? then data == reply.data && n == |data| else n == -1
    {
      hide Distinct, HasFlag;
      StepKeepsInvariant(State(), Call.Read(fd, count, grant));
      var k := Lookup(fd);
      if k == -1 {
        errno := EBADF;
        return -1, [];
      }
      if grant.None? || !fdTable[k].alive {
        errno := EIO;
        return -1, [];
      }
      var entry := fdTable[k];
      var m := FH.Clamped(entry.handle, count, grant.value);
      data := entry.handle.content[entry.handle.pos..entry.handle.pos + m];
      fdTable := fdTable[k := entry.(handle := entry.handle.(pos := entry.handle.pos + m))];
      errno := OK;
      return m, data;
    }

    method Pread(fd: int, count: nat, offset: int, fails: bool) returns (n: int, data: bytes)
      requires Valid()
      modifies this`errno
      ensures Valid()
      ensures var (after, reply) := Step(old(State()), Call.Pread(fd, count, offset, fails));
        State() == after && if reply.Data? then data == reply.data && n == |data| else n == -1
    {
      hide Distinct, HasFlag;
      StepKeepsInvariant(State(), Call.Pread(fd, count, offset, fails));
      var k := Lookup(fd);
      if k == -1 {
        errno := EBADF;
        return -1, [];
      }
      if offset < 0 {
        errno := EINVAL;
        return -1, [];
      }
      if fails || !fdTable[k].alive {
        errno := EIO;
        return -1, [];
      }
      data := FH.PreadBytes(fdTable[k].handle.content, count, offset).value;
      errno := OK;
      return |data|, data;
    }

    /** What the handle's own seek does to its entry, and its result. */
    method SeekHandle(entry: FdEntry, offset: int, whence: FH.Whence, fault: SeekFault) returns (r: int, after: FdEntry)
      ensures var t := FH.Target(entry.handle, offset, whence);
        if !entry.alive || t < 0 then r == -1 && after == entry
        else if SeekFails(entry, t, fault) then r == -1 && after == Stranded(entry, t, fault)
        else r == t && after == entry.(handle := entry.handle.(pos := t))
    {
      after := entry;
      if !entry.alive { return -1, after; }
      r := FH.Target(entry.handle, offset, whence);
      if r < 0 { return -1, after; }
      if SeekFails(entry, r, fault) {
        return -1, Stranded(entry, r, fault);
      }
      after := entry.(handle := entry.handle.(pos := r));
    }

    method Lseek(fd: int, offset: int, whence: FH.Whence, fault: SeekFault) returns (r: int)
      requires Valid()
      modifies this
      ensures Valid()
      ensures var (after, reply) := Step(old(State()), Call.Lseek(fd, offset, whence, fault));
        State() == after && r == if reply.Offset? then reply.at else -1
    {
      hide Distinct, HasFlag, SeekFails, Stranded;
      StepKeepsInvariant(State(), Call.Lseek(fd, offset, whence, fault));
      var k := Lookup(fd);
      if k == -1 {
        errno := EBADF;
        return -1;
      }
      var entry;
      r, entry := SeekHandle(fdTable[k], offset, whence, fault);
      fdTable := fdTable[k := entry];
      errno := if r < 0 then EINVAL else OK;
    }

    method Close(fd: int) returns (rc: int)
      requires Valid()
      modifies this
      ensures Valid()
      ensures State() == Step(old(State()), Call.Close(fd)).0
      ensures rc == 0 <==> LookupFd(old(State()), fd).Some?
    {
      hide Distinct;
      StepKeepsInvariant(State(), Call.Close(fd));
      var k := Lookup(fd);
      if k == -1 {
        errno := EBADF;
        return -1;
      }
      fdTable := fdTable - {WithoutFlag(fd)};
      errno := OK;
      return 0;
    }

    // ---- directories ----------------------------------------------------------------

    /** opendir: the stream's id, or 0 for a null handle. */
    method Opendir(path: string) returns (id: int)
      requires Valid()
      modifies this
      ensures Valid()
      ensures var (after, reply) := Step(old(State()), Call.Opendir(path));
        State() == after && id == if reply.NewDir? then reply.id else 0
    {
      hide Distinct;
      StepKeepsInvariant(State(), Call.Opendir(path));
      if mounts.Keys == {} {
        errno := ENODEV;
        return 0;
      }
      var mount := FindMount(path);
      if mount == -1 {
        errno := ENOENT;
        return 0;
      }
      var result := mounts[mount].fs.list(path);
      if result.Refused? {
        errno := result.errno;
        return 0;
      }
      id := nextDirId;
      dirTable := dirTable[id := DirState(result.value, 0, 0, NO_DIRENT, false, mounts[mount].handle)];
      nextDirId := nextDirId + 1;
      errno := OK;
    }

    method Readdir(d: int) returns (entry: FH.Option<Dirent>)
      requires Valid()
      modifies this
      ensures Valid()
      ensures var (after, reply) := Step(old(State()), Call.Readdir(d));
        State() == after && entry == if reply.Entry? then FH.Some(reply.entry) else FH.None
    {
      hide Distinct, FieldName;
      StepKeepsInvariant(State(), Call.Readdir(d));
      if d !in dirTable {
        errno := EBADF;
        return FH.None;
      }
      var state := dirTable[d];
      if !(state.index < |state.entries|) {
        errno := OK;
        return FH.None;
      }
      var next := state.entries[state.index];
      var record := Dirent(FieldName(next.name), next.isDirectory);
      state := state.(index := state.index + 1);
      state := state.(current := record, hasCurrent := true);
      state := state.(position := state.position + 1);
      dirTable := dirTable[d := state];
      errno := OK;
      return FH.Some(record);
    }

    method Closedir(d: int) returns (rc: int)
      requires Valid()
      modifies this
      ensures Valid()
      ensures State() == Step(old(State()), Call.Closedir(d)).0
      ensures rc == 0 <==> d in old(dirTable)
    {
      hide Distinct;
      StepKeepsInvariant(State(), Call.Closedir(d));
      if d !in dirTable {
        errno := EBADF;
        return -1;
      }
      dirTable := dirTable - {d};
      errno := OK;
      return 0;
    }

    method Rewinddir(d: int)
      requires Valid()
      modifies this
      ensures Valid()
      ensures State() == Step(old(State()), Call.Rewinddir(d)).0
    {
      hide Distinct;
      StepKeepsInvariant(State(), Call.Rewinddir(d));
      if d !in dirTable {
        errno := EBADF;
        return;
      }
      dirTable := dirTable[d := dirTable[d].(index := 0, position := 0, hasCurrent := false)];
      errno := OK;
    }

    method Telldir(d: int) returns (position: int)
      requires Valid()
      modifies this`errno
      ensures Valid()
      ensures var (after, reply) := Step(old(State()), Call.Telldir(d));
        State() == after && position == if reply.Offset? then reply.at else -1
    {
      hide Distinct;
      StepKeepsInvariant(State(), Call.Telldir(d));
      if d !in dirTable {
        errno := EBADF;
        return -1;
      }
      errno := OK;
      return dirTable[d].position;
    }

    /** seekdir: rewinds the forward-only iterator if it must, then consumes entries one by one. */
    method Seekdir(d: int, pos: int)
      requires Valid()
      modifies this
      ensures Valid()
      ensures State() == Step(old(State()), Call.Seekdir(d, pos)).0
    {
      hide Distinct;
      StepKeepsInvariant(State(), Call.Seekdir(d, pos));
      if d !in dirTable {
        errno := EBADF;
        return;
      }
      if pos < 0 {
        errno := EINVAL;
        return;
      }
      var state := dirTable[d];
      ghost var start := state;
      if pos < state.position {
        state := state.(index := 0);
        state := state.(position := 0);
      }
      while state.position < pos && state.index < |state.entries|
        invariant state == start.(index := state.index, position := state.position)
        invariant state.position == state.index <= |state.entries| && state.position <= pos
        decreases pos - state.position
      {
        state := state.(index := state.index + 1);
        state := state.(position := state.position + 1);
      }
      dirTable := dirTable[d := state.(hasCurrent := false)];
      errno := OK;
    }
  }

  lemma SomeMember(s: set<int>)
    ensures s == {} || exists k :: k in s
  {
    if forall k :: k !in s {
      assert s == {};
    }
  }

  lemma AllErased(before: map<int, FdEntry>, after: map<int, FdEntry>, h: int)
    requires forall k :: k in after <==> k in before && before[k].owner != h
    requires forall k :: k in after ==> after[k] == before[k]
    ensures after == FdsExcept(before, h)
  {
    var kept := FdsExcept(before, h);
    assert forall k :: k in kept <==> k in before && before[k].owner != h;
    assert forall k :: k in kept ==> k in after && kept[k] == after[k];
    assert forall k :: k in after ==> k in kept;
  }

  lemma AllDirsErased(before: map<int, DirState>, after: map<int, DirState>, h: int)
    requires forall k :: k in after <==> k in before && before[k].owner != h
    requires forall k :: k in after ==> after[k] == before[k]
    ensures after == DirsExcept(before, h)
  {
    var kept := DirsExcept(before, h);
    assert forall k :: k in kept <==> k in before && before[k].owner != h;
    assert forall k :: k in kept ==> k in after && kept[k] == after[k];
    assert forall k :: k in after ==> k in kept;
  }

  /** What a mount entry point reports about the step it took. */
  ghost predicate MountOutcome(before: Context, after: Context, step: (Context, Reply), rc: int, handle: int) {
    && after == step.0
    && (rc == 0 <==> step.1.NewHandle?)
    && (rc == 0 ==> handle == step.1.handle)
  }

  /** The scan has passed FD_MAX and starts again from 1. */
  ghost predicate Wrapped(fds: map<int, FdEntry>, from: int, fd: int) {
    && 1 <= fd <= FD_MAX
    && from in fds
    && (forall k :: from <= k <= FD_MAX ==> k in fds)
    && (forall k :: 1 <= k < fd ==> k in fds)
  }

  lemma AllTaken(fds: map<int, FdEntry>, fd: int)
    requires fd == FD_MAX && fd in fds && forall k :: 1 <= k < fd ==> k in fds
    ensures forall k :: 1 <= k <= FD_MAX ==> k in fds
  {
  }
}
