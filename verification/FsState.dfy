/**
 * The state of FsContext and what each public call does to it
 * (src/c_api/fs_context.cpp). One mutex guards every call, so a run of the
 * library is a sequence of these steps.
 */
module FsState {
  import opened Bytes
  import opened MountTable
  import FH = FileHandles

  const FD_FLAG := 0x4000_0000
  const FD_MAX := 0x0FFF_FFFF
  const NAME_MAX := 255
  const STREAM_MAX := 0x7FFF_FFFF_FFFF_FFFF

  // ---- state ------------------------------------------------------------------

  /** An open file; its handle is dead once a seek could not reopen its stream. */
  datatype FdEntry = FdEntry(handle: FH.Handle, alive: bool, owner: int)

  /** What readdir hands out: the name cut to the record's field. */
  datatype Dirent = Dirent(name: string, isDirectory: bool)

  datatype DirState = DirState(
    entries: seq<DirEntry>, index: nat, position: int, current: Dirent, hasCurrent: bool, owner: int)

  datatype Context = Context(
    mounts: Mounts, fds: map<int, FdEntry>, dirs: map<int, DirState>,
    compat: int, nextHandle: int, nextFd: int, nextDirId: int, errno: Errno)

  ghost predicate DirPlaced(d: DirState) {
    d.position == d.index <= |d.entries|
  }

  /** What holds after every call of every run. */
  ghost predicate Invariant(c: Context) {
    && Distinct(c.mounts)
    && (forall h :: h in c.mounts ==> c.mounts[h].handle == h && 0 <= h < c.nextHandle)
    && (forall fd :: fd in c.fds ==> fd >= 1 && c.fds[fd].owner in c.mounts && FH.Placed(c.fds[fd].handle))
    && (forall d :: d in c.dirs ==> 1 <= d < c.nextDirId && c.dirs[d].owner in c.mounts && DirPlaced(c.dirs[d]))
    && (c.compat == -1 || c.compat in c.mounts)
    && c.nextHandle >= 0 && c.nextFd >= 1 && c.nextDirId >= 1
  }

  function Initial(): (c: Context)
    ensures Invariant(c)
  {
    Context(map[], map[], map[], -1, 0, 1, 1, OK)
  }

  // ---- external descriptors -----------------------------------------------------

  /** Bit 30 of the two's complement representation. */
  predicate HasFlag(fd: int) {
    fd / FD_FLAG % 2 == 1
  }

  function WithFlag(fd: int): int {
    if HasFlag(fd) then fd else fd + FD_FLAG
  }

  function WithoutFlag(fd: int): int {
    if HasFlag(fd) then fd - FD_FLAG else fd
  }

  function LookupFd(c: Context, fd: int): FH.Option<int> {
    if !HasFlag(fd) then FH.None
    else if WithoutFlag(fd) !in c.fds then FH.None
    else FH.Some(WithoutFlag(fd))
  }

  // ---- descriptor allocation ----------------------------------------------------

  /** The first free number in scan order: from `from` up to FD_MAX, then from 1. */
  ghost predicate IsNextFree(fds: map<int, FdEntry>, from: int, fd: int) {
    && fd !in fds
    && (|| fd == from
        || (from < fd <= FD_MAX && forall k :: from <= k < fd ==> k in fds)
        || (1 <= fd <= FD_MAX && from in fds && (forall k :: from <= k <= FD_MAX ==> k in fds)
            && forall k :: 1 <= k < fd ==> k in fds))
  }

  /** The condition under which the scan for a free number ends. */
  ghost predicate HasRoom(fds: map<int, FdEntry>, from: int) {
    from !in fds || exists k :: 1 <= k <= FD_MAX && k !in fds
  }

  lemma NextFreeIsUnique(fds: map<int, FdEntry>, from: int, a: int, b: int)
    requires IsNextFree(fds, from, a) && IsNextFree(fds, from, b)
    ensures a == b
  {
  }

  /** The next candidate of the scan. */
  function NextCandidate(fd: int): int {
    if fd + 1 > FD_MAX then 1 else fd + 1
  }

  /** Without room the scan never meets a free number: every candidate is taken, and so is the next. */
  lemma NoRoomNoEnd(fds: map<int, FdEntry>, from: int)
    requires from >= 1
    ensures !HasRoom(fds, from) ==> from in fds && !HasRoom(fds, NextCandidate(from))
    ensures HasRoom(fds, from) && from in fds ==> HasRoom(fds, NextCandidate(from))
  {
  }

  lemma {:induction false} FirstGap(fds: map<int, FdEntry>, from: int, gap: int) returns (fd: int)
    requires from <= gap && gap !in fds
    ensures from <= fd <= gap && fd !in fds && forall k :: from <= k < fd ==> k in fds
    decreases gap - from
  {
    if from !in fds {
      fd := from;
    } else {
      fd := FirstGap(fds, from + 1, gap);
    }
  }

  lemma NextFreeExists(fds: map<int, FdEntry>, from: int)
    requires from >= 1
    ensures HasRoom(fds, from) <==> exists fd :: IsNextFree(fds, from, fd)
  {
    if from !in fds {
      assert IsNextFree(fds, from, from);
    } else if HasRoom(fds, from) {
      var gap :| 1 <= gap <= FD_MAX && gap !in fds;
      if above :| from < above <= FD_MAX && above !in fds {
        var fd := FirstGap(fds, from, above);
        assert IsNextFree(fds, from, fd);
      } else {
        var fd := FirstGap(fds, 1, gap);
        assert IsNextFree(fds, from, fd);
      }
    }
  }

  ghost function NextFree(fds: map<int, FdEntry>, from: int): (fd: int)
    requires from >= 1 && HasRoom(fds, from)
    ensures IsNextFree(fds, from, fd)
  {
    NextFreeExists(fds, from);
    var fd :| IsNextFree(fds, from, fd);
    fd
  }

  // ---- mounting -------------------------------------------------------------------

  /** What the backend factory makes of an archive at a mount point. */
  datatype Made = Ready(fs: Backend) | NoBackend(unsupported: bool) | MountFails

  datatype HostFile = Absent | Unopenable(size: nat) | Unreadable(size: nat) | Readable(content: bytes)

  datatype World = World(
    file: string -> HostFile, fromFile: (string, string) -> Made, fromMemory: (bytes, string) -> Made)

  datatype Source = WholeFile(path: string) | Region(path: string, offset: u64, length: u64) | Memory(data: bytes)

  function SizeOf(f: HostFile): nat {
    match f
    case Absent => 0
    case Unopenable(n) => n
    case Unreadable(n) => n
    case Readable(content) => |content|
  }

  /** The bytes of a file region; length 0 means up to the end. */
  function RegionBytes(f: HostFile, offset: nat, length: nat): Outcome<bytes> {
    if f.Absent? then Refused(ENOENT)
    else if offset > SizeOf(f) || offset + length > SizeOf(f) then Refused(EINVAL)
    else
      var region := if length == 0 then SizeOf(f) - offset else length;
      if region == 0 || region > STREAM_MAX then Refused(EINVAL)
      else if f.Unopenable? then Refused(ENOENT)
      else if f.Unreadable? then Refused(EIO)
      else Got(f.content[offset..offset + region])
  }

  function FromMade(made: Made): Outcome<Backend> {
    match made
    case Ready(fs) => Got(fs)
    case NoBackend(unsupported) => Refused(if unsupported then ENOTSUP else EINVAL)
    case MountFails => Refused(EIO)
  }

  function Prepared(w: World, source: Source, point: string): Outcome<Backend> {
    match source
    case WholeFile(path) => FromMade(w.fromFile(path, point))
    case Region(path, offset, length) =>
      (match RegionBytes(w.file(path), offset, length)
       case Refused(e) => Refused(e)
       case Got(data) => FromMade(w.fromMemory(data, point)))
    case Memory(data) => FromMade(w.fromMemory(data, point))
  }

  /** A region of offset 0 and length 0 is the whole file, mounted as a file. */
  function SourceAt(path: string, offset: u64, length: u64): Source {
    if offset == 0 && length == 0 then WholeFile(path) else Region(path, offset, length)
  }

  // ---- one call -------------------------------------------------------------------

  datatype Reply =
    | Failed | Done | NewHandle(handle: int) | NewFd(fd: int) | NewDir(id: int)
    | Data(data: bytes) | Offset(at: int) | Entry(entry: Dirent) | EndOfDirectory

  predicate PointTaken(mounts: Mounts, point: string) {
    exists h :: h in mounts && mounts[h].mountPoint == point
  }

  function Fails(c: Context, e: Errno): (Context, Reply) {
    (c.(errno := e), Failed)
  }

  /** The part of mounting shared by every entry point. */
  function MountLocked(c: Context, w: World, source: Source, point: string): (Context, Reply) {
    if PointTaken(c.mounts, point) then Fails(c, EEXIST)
    else
      match Prepared(w, source, point)
      case Refused(e) => Fails(c, e)
      case Got(fs) =>
        (c.(mounts := c.mounts[c.nextHandle := Mount(c.nextHandle, point, fs)], nextHandle := c.nextHandle + 1, errno := OK),
         NewHandle(c.nextHandle))
  }

  function Mounted(c: Context, w: World, source: Source, point: string): (Context, Reply) {
    if point == "" then Fails(c, EINVAL) else MountLocked(c, w, source, point)
  }

  /** The single-mount entry points, which also take an empty mount point. */
  function Initialised(c: Context, w: World, source: Source, point: string): (Context, Reply) {
    if c.mounts != map[] then Fails(c, EEXIST)
    else
      var (after, reply) := MountLocked(c, w, source, point);
      (if reply.NewHandle? then after.(compat := reply.handle) else after, reply)
  }

  function FdsExcept(fds: map<int, FdEntry>, h: int): map<int, FdEntry> {
    map k | k in fds && fds[k].owner != h :: fds[k]
  }

  function DirsExcept(dirs: map<int, DirState>, h: int): map<int, DirState> {
    map k | k in dirs && dirs[k].owner != h :: dirs[k]
  }

  function Unmounted(c: Context, h: int): (Context, Reply) {
    if h !in c.mounts then Fails(c, ENODEV)
    else
      (c.(mounts := c.mounts - {h}, fds := FdsExcept(c.fds, h), dirs := DirsExcept(c.dirs, h),
          compat := if c.compat == h then -1 else c.compat, errno := OK), Done)
  }

  function AllUnmounted(c: Context): (Context, Reply) {
    (c.(mounts := map[], fds := map[], dirs := map[], nextFd := 1, nextDirId := 1, compat := -1), Done)
  }

  ghost function Opened(c: Context, path: string, readOnly: bool): (Context, Reply)
    requires c.nextFd >= 1 && HasRoom(c.fds, c.nextFd)
  {
    var h := Owner(c.mounts, path);
    if c.mounts == map[] then Fails(c, ENODEV)
    else if !readOnly then Fails(c, EROFS)
    else if h == -1 || h !in c.mounts then Fails(c, ENOENT)
    else
      match c.mounts[h].fs.open(path)
      case Refused(e) => Fails(c, e)
      case Got(content) =>
        var fd := NextFree(c.fds, c.nextFd);
        (c.(fds := c.fds[fd := FdEntry(FH.Handle(content, 0), true, c.mounts[h].handle)], nextFd := fd + 1, errno := OK),
         NewFd(WithFlag(fd)))
  }

  /** grant: how many bytes the handle's stream gives, or None when reading fails. */
  function ReadFrom(c: Context, fd: int, count: nat, grant: FH.Option<nat>): (Context, Reply)
    requires Invariant(c)
  {
    match LookupFd(c, fd)
    case None => Fails(c, EBADF)
    case Some(k) =>
      if grant == FH.None || !c.fds[k].alive then Fails(c, EIO)
      else
        var h := c.fds[k].handle;
        var n := FH.Clamped(h, count, grant.value);
        (c.(fds := c.fds[k := c.fds[k].(handle := h.(pos := h.pos + n))], errno := OK), Data(h.content[h.pos..h.pos + n]))
  }

  function PreadFrom(c: Context, fd: int, count: nat, offset: int, fails: bool): (Context, Reply) {
    match LookupFd(c, fd)
    case None => Fails(c, EBADF)
    case Some(k) =>
      if offset < 0 then Fails(c, EINVAL)
      else if fails || !c.fds[k].alive then Fails(c, EIO)
      else
        match FH.PreadBytes(c.fds[k].handle.content, count, offset)
        case None => Fails(c, EIO)
        case Some(data) => (c.(errno := OK), Data(data))
  }

  /** How the backend fails to reposition a handle: the stream is not reopened, or stops short of the target. */
  datatype SeekFault = NoFault | Dies | StopsAt(at: nat)

  /** The entry after a seek to t that fails part-way. */
  function Stranded(entry: FdEntry, t: nat, fault: SeekFault): FdEntry
    requires t > 0 || !fault.StopsAt?
  {
    match fault
    case NoFault => entry
    case Dies => entry.(alive := false)
    case StopsAt(at) => entry.(handle := entry.handle.(pos := FH.Min(at, t - 1)))
  }

  /** A fault matters only where the handle is repositioned at all; reading short of the start is not possible. */
  predicate SeekFails(entry: FdEntry, t: int, fault: SeekFault) {
    fault != NoFault && t != entry.handle.pos && (fault.StopsAt? ==> t > 0)
  }

  function Sought(c: Context, fd: int, offset: int, whence: FH.Whence, fault: SeekFault): (Context, Reply) {
    match LookupFd(c, fd)
    case None => Fails(c, EBADF)
    case Some(k) =>
      var entry := c.fds[k];
      var t := FH.Target(entry.handle, offset, whence);
      if !entry.alive || t < 0 then Fails(c, EINVAL)
      else if SeekFails(entry, t, fault) then
        (c.(fds := c.fds[k := Stranded(entry, t, fault)], errno := EINVAL), Failed)
      else (c.(fds := c.fds[k := entry.(handle := entry.handle.(pos := t))], errno := OK), Offset(t))
  }

  function Closed(c: Context, fd: int): (Context, Reply) {
    match LookupFd(c, fd)
    case None => Fails(c, EBADF)
    case Some(k) => (c.(fds := c.fds - {k}, errno := OK), Done)
  }

  const NO_DIRENT := Dirent("", false)

  ghost function DirOpened(c: Context, path: string): (Context, Reply) {
    var h := Owner(c.mounts, path);
    if c.mounts == map[] then Fails(c, ENODEV)
    else if h == -1 || h !in c.mounts then Fails(c, ENOENT)
    else
      match c.mounts[h].fs.list(path)
      case Refused(e) => Fails(c, e)
      case Got(entries) =>
        (c.(dirs := c.dirs[c.nextDirId := DirState(entries, 0, 0, NO_DIRENT, false, c.mounts[h].handle)],
            nextDirId := c.nextDirId + 1, errno := OK),
         NewDir(c.nextDirId))
  }

  function UpToNul(name: string): string {
    if name == "" || name[0] == '\0' then "" else [name[0]] + UpToNul(name[1..])
  }

  /** The name as it fits the 256-byte field of the record. */
  function FieldName(name: string): string {
    var text := UpToNul(name);
    if |text| <= NAME_MAX then text else text[..NAME_MAX]
  }

  function DirRead(c: Context, d: int): (Context, Reply)
    requires Invariant(c)
  {
    if d !in c.dirs then Fails(c, EBADF)
    else
      var s := c.dirs[d];
      if s.index == |s.entries| then (c.(errno := OK), EndOfDirectory)
      else
        var e := s.entries[s.index];
        var record := Dirent(FieldName(e.name), e.isDirectory);
        (c.(dirs := c.dirs[d := s.(index := s.index + 1, position := s.position + 1, current := record, hasCurrent := true)],
            errno := OK), Entry(record))
  }

  function DirClosed(c: Context, d: int): (Context, Reply) {
    if d !in c.dirs then Fails(c, EBADF) else (c.(dirs := c.dirs - {d}, errno := OK), Done)
  }

  function DirTold(c: Context, d: int): (Context, Reply) {
    if d !in c.dirs then Fails(c, EBADF) else (c.(errno := OK), Offset(c.dirs[d].position))
  }

  /** A directory stream at entry number pos, or at its end if there are fewer entries. */
  function DirAt(s: DirState, pos: nat): DirState {
    var at := FH.Min(pos, |s.entries|);
    s.(index := at, position := at, hasCurrent := false)
  }

  function DirSought(c: Context, d: int, pos: int): (Context, Reply) {
    if d !in c.dirs then Fails(c, EBADF)
    else if pos < 0 then Fails(c, EINVAL)
    else (c.(dirs := c.dirs[d := DirAt(c.dirs[d], pos)], errno := OK), Done)
  }

  datatype Call =
    | MountArchive(world: World, source: Source, point: string)
    | Init(world: World, source: Source, point: string)
    | UnmountHandle(handle: int)
    | Unmount
    | Open(path: string, readOnly: bool)
    | Read(fd: int, count: nat, grant: FH.Option<nat>)
    | Pread(fd: int, count: nat, at: int, fails: bool)
    | Lseek(fd: int, offset: int, whence: FH.Whence, fault: SeekFault)
    | Close(fd: int)
    | Opendir(path: string)
    | Readdir(dir: int)
    | Closedir(dir: int)
    | Rewinddir(dir: int)
    | Telldir(dir: int)
    | Seekdir(dir: int, pos: int)

  /** Every call returns, except an open that finds every descriptor number taken. */
  ghost predicate Returns(c: Context, call: Call) {
    call.Open? ==> HasRoom(c.fds, c.nextFd)
  }

  ghost function Step(c: Context, call: Call): (Context, Reply)
    requires Invariant(c) && Returns(c, call)
  {
    match call
    case MountArchive(w, source, point) => Mounted(c, w, source, point)
    case Init(w, source, point) => Initialised(c, w, source, point)
    case UnmountHandle(h) => Unmounted(c, h)
    case Unmount => AllUnmounted(c)
    case Open(path, readOnly) => Opened(c, path, readOnly)
    case Read(fd, count, grant) => ReadFrom(c, fd, count, grant)
    case Pread(fd, count, at, fails) => PreadFrom(c, fd, count, at, fails)
    case Lseek(fd, offset, whence, fault) => Sought(c, fd, offset, whence, fault)
    case Close(fd) => Closed(c, fd)
    case Opendir(path) => DirOpened(c, path)
    case Readdir(d) => DirRead(c, d)
    case Closedir(d) => DirClosed(c, d)
    case Rewinddir(d) => DirSought(c, d, 0)
    case Telldir(d) => DirTold(c, d)
    case Seekdir(d, pos) => DirSought(c, d, pos)
  }
}
