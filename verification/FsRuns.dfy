/** What every run of FsContext calls keeps (src/c_api/fs_context.cpp). */
module FsRuns {
  import opened Bytes
  import opened MountTable
  import opened FsState
  import FH = FileHandles

  // ---- one step -----------------------------------------------------------------

  lemma MountKeepsInvariant(c: Context, w: World, source: Source, point: string)
    requires Invariant(c)
    ensures Invariant(MountLocked(c, w, source, point).0)
    ensures var (after, reply) := MountLocked(c, w, source, point);
      reply.NewHandle? ==> reply.handle in after.mounts
  {
    hide Prepared;
  }

  lemma OpenKeepsInvariant(c: Context, path: string, readOnly: bool)
    requires Invariant(c) && HasRoom(c.fds, c.nextFd)
    ensures Invariant(Opened(c, path, readOnly).0)
  {
    hide Owner, Distinct;
  }

  lemma EntryUpdateKeeps(c: Context, k: int, entry: FdEntry, e: Errno)
    requires Invariant(c) && k in c.fds && FH.Placed(entry.handle) && entry.owner == c.fds[k].owner
    ensures Invariant(c.(fds := c.fds[k := entry], errno := e))
  {
    hide Distinct, DirPlaced;
  }

  lemma RemovalKeeps(c: Context, k: int, e: Errno)
    requires Invariant(c)
    ensures Invariant(c.(fds := c.fds - {k}, errno := e))
    ensures Invariant(c.(dirs := c.dirs - {k}, errno := e))
  {
    hide Distinct, DirPlaced;
  }

  lemma ReadKeepsInvariant(c: Context, fd: int, count: nat, grant: FH.Option<nat>)
    requires Invariant(c)
    ensures Invariant(ReadFrom(c, fd, count, grant).0)
  {
    FailureKeepsInvariant(c, EBADF);
    FailureKeepsInvariant(c, EIO);
    if LookupFd(c, fd).Some? && grant.Some? {
      var k := LookupFd(c, fd).value;
      var h := c.fds[k].handle;
      EntryUpdateKeeps(c, k, c.fds[k].(handle := h.(pos := h.pos + FH.Clamped(h, count, grant.value))), OK);
    }
    hide Invariant, HasFlag;
  }

  lemma PreadKeepsInvariant(c: Context, fd: int, count: nat, offset: int, fails: bool)
    requires Invariant(c)
    ensures Invariant(PreadFrom(c, fd, count, offset, fails).0)
  {
    FailureKeepsInvariant(c, EBADF);
    FailureKeepsInvariant(c, EINVAL);
    FailureKeepsInvariant(c, EIO);
    FailureKeepsInvariant(c, OK);
    hide Invariant, HasFlag;
  }

  lemma SeekKeepsInvariant(c: Context, fd: int, offset: int, whence: FH.Whence, fault: SeekFault)
    requires Invariant(c)
    ensures Invariant(Sought(c, fd, offset, whence, fault).0)
  {
    FailureKeepsInvariant(c, EBADF);
    FailureKeepsInvariant(c, EINVAL);
    if LookupFd(c, fd).Some? {
      var k := LookupFd(c, fd).value;
      var entry := c.fds[k];
      var t := FH.Target(entry.handle, offset, whence);
      if t >= 0 {
        EntryUpdateKeeps(c, k, entry.(handle := entry.handle.(pos := t)), OK);
        if SeekFails(entry, t, fault) {
          EntryUpdateKeeps(c, k, Stranded(entry, t, fault), EINVAL);
        }
      }
    }
    hide Invariant, HasFlag, Stranded, SeekFails, FH.Target;
  }

  lemma CloseKeepsInvariant(c: Context, fd: int)
    requires Invariant(c)
    ensures Invariant(Closed(c, fd).0)
  {
    FailureKeepsInvariant(c, EBADF);
    if LookupFd(c, fd).Some? {
      RemovalKeeps(c, LookupFd(c, fd).value, OK);
    }
    hide Invariant, HasFlag;
  }

  lemma DirUpdateKeeps(c: Context, d: int, s: DirState, e: Errno)
    requires Invariant(c) && d in c.dirs && DirPlaced(s) && s.owner == c.dirs[d].owner
    ensures Invariant(c.(dirs := c.dirs[d := s], errno := e))
  {
    hide Distinct;
  }

  lemma OpendirKeepsInvariant(c: Context, path: string)
    requires Invariant(c)
    ensures Invariant(DirOpened(c, path).0)
  {
    hide Distinct, Owner;
  }

  lemma ReaddirKeepsInvariant(c: Context, d: int)
    requires Invariant(c)
    ensures Invariant(DirRead(c, d).0)
  {
    FailureKeepsInvariant(c, EBADF);
    FailureKeepsInvariant(c, OK);
    if d in c.dirs && c.dirs[d].index < |c.dirs[d].entries| {
      var s := c.dirs[d];
      var e := s.entries[s.index];
      var record := Dirent(FieldName(e.name), e.isDirectory);
      DirUpdateKeeps(
        c, d, s.(index := s.index + 1, position := s.position + 1, current := record, hasCurrent := true), OK);
    }
    ListedIndex(c, d);
    hide Invariant, FieldName;
  }

  lemma ListedIndex(c: Context, d: int)
    requires Invariant(c)
    ensures d in c.dirs ==> c.dirs[d].index <= |c.dirs[d].entries|
  {
    hide Distinct;
  }

  lemma SeekdirKeepsInvariant(c: Context, d: int, pos: int)
    requires Invariant(c)
    ensures Invariant(DirSought(c, d, pos).0)
  {
    FailureKeepsInvariant(c, EBADF);
    FailureKeepsInvariant(c, EINVAL);
    if d in c.dirs && pos >= 0 {
      DirUpdateKeeps(c, d, DirAt(c.dirs[d], pos), OK);
    }
    hide Invariant, DirAt;
  }

  lemma TelldirKeepsInvariant(c: Context, d: int)
    requires Invariant(c)
    ensures Invariant(DirTold(c, d).0)
  {
    FailureKeepsInvariant(c, EBADF);
    FailureKeepsInvariant(c, OK);
    hide Invariant;
  }

  lemma ClosedirKeepsInvariant(c: Context, d: int)
    requires Invariant(c)
    ensures Invariant(DirClosed(c, d).0)
  {
    FailureKeepsInvariant(c, EBADF);
    RemovalKeeps(c, d, OK);
    hide Invariant;
  }

  lemma UnmountKeepsInvariant(c: Context, h: int)
    requires Invariant(c)
    ensures Invariant(Unmounted(c, h).0)
  {
  }

  lemma StepKeepsInvariant(c: Context, call: Call)
    requires Invariant(c) && Returns(c, call)
    ensures Invariant(Step(c, call).0)
  {
    hide Invariant, MountLocked, Opened, Unmounted, DirOpened, DirRead, DirSought, DirTold, DirClosed;
    hide ReadFrom, PreadFrom, Sought, Closed;
    match call {
      case MountArchive(w, source, point) => MountKeepsInvariant(c, w, source, point); FailureKeepsInvariant(c, EINVAL);
      case Init(w, source, point) => InitKeepsInvariant(c, w, source, point);
      case UnmountHandle(h) => UnmountKeepsInvariant(c, h);
      case Unmount => ClearedKeepsInvariant(c);
      case Open(path, readOnly) => OpenKeepsInvariant(c, path, readOnly);
      case Read(fd, count, grant) => ReadKeepsInvariant(c, fd, count, grant);
      case Pread(fd, count, at, fails) => PreadKeepsInvariant(c, fd, count, at, fails);
      case Lseek(fd, offset, whence, fault) => SeekKeepsInvariant(c, fd, offset, whence, fault);
      case Close(fd) => CloseKeepsInvariant(c, fd);
      case Opendir(path) => OpendirKeepsInvariant(c, path);
      case Readdir(d) => ReaddirKeepsInvariant(c, d);
      case Closedir(d) => ClosedirKeepsInvariant(c, d);
      case Rewinddir(d) => SeekdirKeepsInvariant(c, d, 0);
      case Telldir(d) => TelldirKeepsInvariant(c, d);
      case Seekdir(d, pos) => SeekdirKeepsInvariant(c, d, pos);
    }
  }

  lemma FailureKeepsInvariant(c: Context, e: Errno)
    requires Invariant(c)
    ensures Invariant(Fails(c, e).0)
  {
  }

  lemma ClearedKeepsInvariant(c: Context)
    requires Invariant(c)
    ensures Invariant(AllUnmounted(c).0)
  {
  }

  lemma InitKeepsInvariant(c: Context, w: World, source: Source, point: string)
    requires Invariant(c)
    ensures Invariant(Initialised(c, w, source, point).0)
  {
    hide MountLocked;
    MountKeepsInvariant(c, w, source, point);
  }

  // ---- runs -----------------------------------------------------------------------

  ghost predicate Legal(c: Context, calls: seq<Call>)
    requires Invariant(c)
    decreases |calls|
  {
    calls != [] ==>
      && Returns(c, calls[0])
      && (StepKeepsInvariant(c, calls[0]); Legal(Step(c, calls[0]).0, calls[1..]))
  }

  ghost function Run(c: Context, calls: seq<Call>): (r: Context)
    requires Invariant(c) && Legal(c, calls)
    ensures Invariant(r)
    decreases |calls|
  {
    if calls == [] then c
    else
      StepKeepsInvariant(c, calls[0]);
      Run(Step(c, calls[0]).0, calls[1..])
  }

  ghost function Replies(c: Context, calls: seq<Call>): (r: seq<Reply>)
    requires Invariant(c) && Legal(c, calls)
    ensures |r| == |calls|
    decreases |calls|
  {
    if calls == [] then []
    else
      StepKeepsInvariant(c, calls[0]);
      [Step(c, calls[0]).1] + Replies(Step(c, calls[0]).0, calls[1..])
  }

  /** From the initial state, whatever the calls: the tables are consistent. */
  lemma {:induction false} EveryRunIsConsistent(calls: seq<Call>)
    requires Legal(Initial(), calls)
    ensures var c := Run(Initial(), calls);
      && Distinct(c.mounts)
      && (forall h :: h in c.mounts ==> c.mounts[h].handle == h && h < c.nextHandle)
      && (forall fd :: fd in c.fds ==> c.fds[fd].owner in c.mounts)
      && (forall d :: d in c.dirs ==> c.dirs[d].owner in c.mounts && c.dirs[d].position == c.dirs[d].index)
      && (c.compat == -1 || c.compat in c.mounts)
  {
    assert Invariant(Run(Initial(), calls));
  }

  // ---- handles -----------------------------------------------------------------------

  lemma HandlesGrow(c: Context, call: Call)
    requires Invariant(c) && Returns(c, call)
    ensures var (after, reply) := Step(c, call);
      && c.nextHandle <= after.nextHandle
      && (reply.NewHandle? ==> reply.handle == c.nextHandle < after.nextHandle)
      && (forall h :: h in after.mounts && h !in c.mounts ==> h >= c.nextHandle)
  {
    hide Invariant, Owner, NextFree, FieldName, Prepared, HasFlag, FH.PreadBytes;
  }

  lemma {:induction false} LaterHandlesAreLarger(c: Context, calls: seq<Call>, i: nat)
    requires Invariant(c) && Legal(c, calls) && i < |calls|
    requires Replies(c, calls)[i].NewHandle?
    ensures Replies(c, calls)[i].handle >= c.nextHandle
    decreases |calls|
  {
    hide Invariant, Step, Returns;
    StepKeepsInvariant(c, calls[0]);
    HandlesGrow(c, calls[0]);
    if i > 0 {
      LaterHandlesAreLarger(Step(c, calls[0]).0, calls[1..], i - 1);
    }
  }

  /** No mount handle is handed out twice in a run, unmounts in between or not. */
  lemma {:induction false} HandlesNeverReused(c: Context, calls: seq<Call>, i: nat, j: nat)
    requires Invariant(c) && Legal(c, calls) && i < j < |calls|
    requires Replies(c, calls)[i].NewHandle? && Replies(c, calls)[j].NewHandle?
    ensures Replies(c, calls)[i].handle < Replies(c, calls)[j].handle
    decreases |calls|
  {
    hide Invariant, Step, Returns;
    StepKeepsInvariant(c, calls[0]);
    HandlesGrow(c, calls[0]);
    var after := Step(c, calls[0]).0;
    if i > 0 {
      HandlesNeverReused(after, calls[1..], i - 1, j - 1);
    } else {
      LaterHandlesAreLarger(after, calls[1..], j - 1);
    }
  }

  /** An unmounted handle never becomes live again. */
  lemma {:induction false} DeadHandlesStayDead(c: Context, calls: seq<Call>, h: int)
    requires Invariant(c) && Legal(c, calls) && h < c.nextHandle && h !in c.mounts
    ensures h !in Run(c, calls).mounts
    decreases |calls|
  {
    hide Invariant, Step, Returns;
    if calls != [] {
      StepKeepsInvariant(c, calls[0]);
      HandlesGrow(c, calls[0]);
      DeadHandlesStayDead(Step(c, calls[0]).0, calls[1..], h);
    }
  }

  // ---- mounting and unmounting ---------------------------------------------------------

  /** Unmounting h takes away exactly what h owns and moves only the paths h served. */
  lemma UnmountEffect(c: Context, h: int, path: string)
    requires Invariant(c) && h in c.mounts
    ensures var after := Step(c, UnmountHandle(h)).0;
      && (forall fd :: fd in after.fds <==> fd in c.fds && c.fds[fd].owner != h)
      && (forall fd :: fd in after.fds ==> after.fds[fd] == c.fds[fd])
      && (forall d :: d in after.dirs <==> d in c.dirs && c.dirs[d].owner != h)
      && (forall d :: d in after.dirs ==> after.dirs[d] == c.dirs[d])
      && (Owner(c.mounts, path) != h ==> Owner(after.mounts, path) == Owner(c.mounts, path))
      && (forall g :: NextBest(c.mounts, path, h, g) ==> Owner(after.mounts, path) == g)
  {
    DispatchAfterUnmount(c.mounts, path, h);
  }

  /** Mounting and unmounting again leaves only the used-up handle behind. */
  lemma MountThenUnmount(c: Context, w: World, source: Source, point: string)
    requires Invariant(c)
    requires Step(c, MountArchive(w, source, point)).1.NewHandle?
    ensures var (mounted, reply) := Step(c, MountArchive(w, source, point));
      && Invariant(mounted)
      && reply.handle in mounted.mounts
      && Step(mounted, UnmountHandle(reply.handle)).0 == c.(nextHandle := c.nextHandle + 1, errno := OK)
  {
    hide Prepared;
    StepKeepsInvariant(c, MountArchive(w, source, point));
    var (mounted, reply) := Step(c, MountArchive(w, source, point));
    NewHandleOwnsNothing(c);
    hide Invariant, FdsExcept, DirsExcept;
    assert mounted.mounts - {reply.handle} == c.mounts;
    assert mounted.compat != reply.handle;
  }

  lemma NewHandleOwnsNothing(c: Context)
    requires Invariant(c)
    ensures c.nextHandle !in c.mounts && c.compat != c.nextHandle
    ensures FdsExcept(c.fds, c.nextHandle) == c.fds
    ensures DirsExcept(c.dirs, c.nextHandle) == c.dirs
  {
    hide Distinct, DirPlaced;
    assert forall fd :: fd in c.fds ==> c.fds[fd].owner != c.nextHandle;
    assert forall d :: d in c.dirs ==> c.dirs[d].owner != c.nextHandle;
  }

  // ---- regions ------------------------------------------------------------------------

  /** A region mount is accepted exactly when the region lies inside a readable file and is not empty. */
  lemma RegionAccepted(f: HostFile, offset: u64, length: u64)
    ensures RegionBytes(f, offset, length).Got? <==>
      && f.Readable?
      && offset < |f.content|
      && offset + length <= |f.content|
      && (if length == 0 then |f.content| - offset else length) <= STREAM_MAX
    ensures RegionBytes(f, offset, length).Got? && length > 0 ==>
      |RegionBytes(f, offset, length).value| == length
  {
  }

  // ---- descriptors ----------------------------------------------------------------------

  /** Setting and clearing the flag bit cancel exactly for numbers that do not carry it. */
  lemma FlagRoundTrip(fd: nat)
    ensures HasFlag(WithFlag(fd))
    ensures WithoutFlag(WithFlag(fd)) == fd <==> !HasFlag(fd)
    ensures fd < FD_FLAG ==> !HasFlag(fd)
    ensures FD_FLAG <= fd < 2 * FD_FLAG ==> HasFlag(fd)
  {
  }

  /** The descriptor an open returns leads back to the file afterOpen exactly when its number has bit 30 clear. */
  lemma OpenResolves(c: Context, path: string)
    requires Invariant(c) && HasRoom(c.fds, c.nextFd) && Step(c, Open(path, true)).1.NewFd?
    ensures var (after, reply) := Step(c, Open(path, true));
      var fd := NextFree(c.fds, c.nextFd);
      && fd !in c.fds && fd in after.fds
      && after.fds == c.fds[fd := after.fds[fd]]
      && after.fds[fd].owner == Owner(c.mounts, path)
      && Got(after.fds[fd].handle.content) == c.mounts[Owner(c.mounts, path)].fs.open(path)
      && after.fds[fd].handle.pos == 0
      && (LookupFd(after, reply.fd) == FH.Some(fd) <==> !HasFlag(fd))
  {
    hide Owner, HasFlag;
    FlagRoundTrip(NextFree(c.fds, c.nextFd));
  }

  ghost predicate Below(c: Context, n: int) {
    c.nextFd <= n && forall fd :: fd in c.fds ==> fd < n
  }

  lemma NextFreeStaysBelow(c: Context, n: int)
    requires c.nextFd >= 1 && HasRoom(c.fds, c.nextFd) && Below(c, n)
    ensures NextFree(c.fds, c.nextFd) <= n
  {
    var fd := NextFree(c.fds, c.nextFd);
    if fd != c.nextFd && fd > 1 {
      assert fd - 1 in c.fds;
    }
  }

  lemma OpenStaysBelow(c: Context, path: string, readOnly: bool, n: int)
    requires Invariant(c) && HasRoom(c.fds, c.nextFd) && Below(c, n)
    ensures Below(Opened(c, path, readOnly).0, n + 1)
  {
    NextFreeStaysBelow(c, n);
    hide Owner, Invariant, NextFree, HasRoom, HasFlag;
  }

  lemma StepStaysBelow(c: Context, call: Call, n: int)
    requires Invariant(c) && Returns(c, call) && Below(c, n)
    ensures Below(Step(c, call).0, if call.Open? then n + 1 else n)
  {
    hide Owner, FieldName, Prepared, HasFlag, FH.PreadBytes, Distinct, DirPlaced, NextFree, IsNextFree, HasRoom;
    if call.Open? {
      OpenStaysBelow(c, call.path, call.readOnly, n);
    } else {
      var after := Step(c, call).0;
      assert after.nextFd == c.nextFd || after.nextFd == 1;
      assert forall fd :: fd in after.fds ==> fd in c.fds;
    }
  }

  function OpensIn(calls: seq<Call>): nat {
    if calls == [] then 0 else (if calls[0].Open? then 1 else 0) + OpensIn(calls[1..])
  }

  lemma {:induction false} RunStaysBelow(c: Context, calls: seq<Call>, n: int)
    requires Invariant(c) && Legal(c, calls) && Below(c, n)
    ensures Below(Run(c, calls), n + OpensIn(calls))
    decreases |calls|
  {
    hide Invariant, Step, Returns, Below;
    if calls != [] {
      StepKeepsInvariant(c, calls[0]);
      StepStaysBelow(c, calls[0], n);
      RunStaysBelow(Step(c, calls[0]).0, calls[1..], if calls[0].Open? then n + 1 else n);
    }
  }

  /** In a run with fewer than 2^30 opens, every live descriptor resolves to its own entry and to no other. */
  lemma LiveDescriptorsNeverAlias(calls: seq<Call>, fd: int, other: int)
    requires Legal(Initial(), calls) && OpensIn(calls) < FD_FLAG
    requires fd in Run(Initial(), calls).fds && other in Run(Initial(), calls).fds
    ensures LookupFd(Run(Initial(), calls), WithFlag(fd)) == FH.Some(fd)
    ensures WithFlag(fd) == WithFlag(other) ==> fd == other
  {
    assert Invariant(Run(Initial(), calls)) && fd >= 1 && other >= 1;
    hide Legal, Invariant, OpensIn, Run;
    RunStaysBelow(Initial(), calls, 1);
    FlagRoundTrip(fd);
    FlagRoundTrip(other);
  }

  lemma RunCons(c: Context, call: Call, rest: seq<Call>)
    requires Invariant(c) && Returns(c, call) && Invariant(Step(c, call).0) && Legal(Step(c, call).0, rest)
    ensures Legal(c, [call] + rest)
    ensures Run(c, [call] + rest) == Run(Step(c, call).0, rest)
  {
    hide Invariant, Step, Returns;
    assert ([call] + rest)[1..] == rest;
  }

  function OpenCloseRun(path: string, from: int, n: nat): seq<Call>
    decreases n
  {
    if n == 0 then [] else [Open(path, true), Close(WithFlag(from))] + OpenCloseRun(path, from + 1, n - 1)
  }

  ghost predicate Openable(c: Context, path: string) {
    var h := Owner(c.mounts, path);
    h in c.mounts && h >= 0 && c.mounts[h].fs.open(path).Got?
  }

  /** The counter is ahead of every number in use. */
  ghost predicate Unused(c: Context) {
    forall fd :: fd in c.fds ==> fd < c.nextFd
  }

  lemma StillUnused(c: Context, d: Context)
    requires Unused(c) && d.fds == c.fds && d.nextFd >= c.nextFd
    ensures Unused(d)
  {
  }

  lemma OpenCloseStep(c: Context, path: string)
    requires Invariant(c) && Openable(c, path) && Unused(c) && c.nextFd < FD_FLAG
    ensures Returns(c, Open(path, true))
    ensures var afterOpen := Step(c, Open(path, true)).0;
      && Invariant(afterOpen)
      && Step(afterOpen, Close(WithFlag(c.nextFd))).0 == c.(nextFd := c.nextFd + 1, errno := OK)
  {
    StepKeepsInvariant(c, Open(path, true));
    NextFreeIsUnique(c.fds, c.nextFd, c.nextFd, NextFree(c.fds, c.nextFd));
    FlagRoundTrip(c.nextFd);
    hide Owner, Invariant, HasFlag;
    var afterOpen := Step(c, Open(path, true)).0;
    assert c.nextFd !in c.fds;
    assert afterOpen.fds - {c.nextFd} == c.fds;
  }

  /** The counter never wraps as long as nothing collides: it only counts the opens. */
  lemma {:induction false} OpenCloseCounts(c: Context, path: string, n: nat)
    requires Invariant(c) && Openable(c, path) && Unused(c) && c.nextFd + n <= FD_FLAG && n > 0
    ensures Legal(c, OpenCloseRun(path, c.nextFd, n))
    ensures Run(c, OpenCloseRun(path, c.nextFd, n)) == c.(nextFd := c.nextFd + n, errno := OK)
    decreases n
  {
    hide Invariant, Step, Returns, Openable, Unused;
    var rest := OpenCloseRun(path, c.nextFd + 1, n - 1);
    var first, second := Open(path, true), Close(WithFlag(c.nextFd));
    OpenCloseStep(c, path);
    var afterOpen := Step(c, first).0;
    var again := c.(nextFd := c.nextFd + 1, errno := OK);
    CloseReturns(afterOpen, WithFlag(c.nextFd));
    StepKeepsInvariant(afterOpen, second);
    StillOpenable(c, again, path);
    StillUnused(c, again);
    if n > 1 {
      OpenCloseCounts(again, path, n - 1);
    }
    RunCons(afterOpen, second, rest);
    RunCons(c, first, [second] + rest);
    assert OpenCloseRun(path, c.nextFd, n) == [first] + ([second] + rest);
  }

  lemma CloseReturns(c: Context, fd: int)
    ensures Returns(c, Close(fd))
  {
  }

  lemma StillOpenable(c: Context, d: Context, path: string)
    requires Openable(c, path) && d.mounts == c.mounts
    ensures Openable(d, path)
  {
  }

  /** The bound is exact: the 2^30th open gets a descriptor that leads nowhere. */
  lemma DescriptorLost(c: Context, path: string)
    requires Invariant(c) && Openable(c, path) && Unused(c) && c.nextFd == FD_FLAG
    ensures Returns(c, Open(path, true))
    ensures var (after, reply) := Step(c, Open(path, true));
      reply == NewFd(FD_FLAG) && FD_FLAG in after.fds && LookupFd(after, reply.fd) == FH.None
  {
    NextFreeIsUnique(c.fds, c.nextFd, c.nextFd, NextFree(c.fds, c.nextFd));
    hide Owner, Distinct, DirPlaced;
  }

  /** Beyond it, number 2^30 + k goes out as a descriptor that leads to number k: with both open, to the other file. */
  lemma DescriptorAliased(c: Context, path: string, k: int)
    requires Invariant(c) && Openable(c, path) && Unused(c) && 1 <= k < FD_FLAG && c.nextFd == FD_FLAG + k && k in c.fds
    ensures WithFlag(FD_FLAG + k) == WithFlag(k) && WithoutFlag(WithFlag(FD_FLAG + k)) == k
    ensures Returns(c, Open(path, true))
    ensures var (after, reply) := Step(c, Open(path, true));
      && reply == NewFd(FD_FLAG + k)
      && FD_FLAG + k in after.fds && k in after.fds && after.fds[k] == c.fds[k]
      && LookupFd(after, reply.fd) == FH.Some(k)
  {
    NextFreeIsUnique(c.fds, c.nextFd, c.nextFd, NextFree(c.fds, c.nextFd));
    hide Owner, Distinct, DirPlaced;
  }

  /** An open on an unused counter takes exactly that number. */
  lemma OpenTakesNext(c: Context, path: string)
    requires Invariant(c) && Openable(c, path) && Unused(c)
    ensures Returns(c, Open(path, true))
    ensures var after := Step(c, Open(path, true)).0;
      && Invariant(after) && Unused(after) && Openable(after, path)
      && after.nextFd == c.nextFd + 1 && after.fds.Keys == c.fds.Keys + {c.nextFd}
  {
    StepKeepsInvariant(c, Open(path, true));
    NextFreeIsUnique(c.fds, c.nextFd, c.nextFd, NextFree(c.fds, c.nextFd));
    hide Owner, Invariant, HasFlag, WithFlag;
  }

  lemma {:induction false} RunConcat(c: Context, a: seq<Call>, b: seq<Call>)
    requires Invariant(c) && Legal(c, a) && Legal(Run(c, a), b)
    ensures Legal(c, a + b) && Run(c, a + b) == Run(Run(c, a), b)
    decreases |a|
  {
    hide Invariant, Step, Returns;
    if a == [] {
      assert a + b == b;
    } else {
      StepKeepsInvariant(c, a[0]);
      RunConcat(Step(c, a[0]).0, a[1..], b);
      RunCons(c, a[0], a[1..] + b);
      assert [a[0]] + (a[1..] + b) == a + b;
    }
  }

  /** A run after which two open files share one descriptor: the second reads the first. */
  lemma AliasIsReached(c: Context, path: string) returns (calls: seq<Call>)
    requires Invariant(c) && Openable(c, path) && c.fds == map[] && c.nextFd == 1
    ensures Legal(c, calls)
    ensures var later := Run(c, calls);
      && Returns(later, Open(path, true))
      && (var (after, reply) := Step(later, Open(path, true));
          reply == NewFd(FD_FLAG + 1) && FD_FLAG + 1 in after.fds && LookupFd(after, reply.fd) == FH.Some(1))
  {
    hide Invariant, Step, Returns, LookupFd, OpenCloseRun, Openable, WithFlag, WithoutFlag;
    var open, middle := Open(path, true), OpenCloseRun(path, 2, FD_FLAG - 2);
    OpenTakesNext(c, path);
    var first := Step(c, open).0;
    OpenCloseCounts(first, path, FD_FLAG - 2);
    var second := Run(first, middle);
    StillOpenable(first, second, path);
    StillUnused(first, second);
    OpenTakesNext(second, path);
    RunCons(second, open, []);
    RunConcat(first, middle, [open]);
    RunCons(c, open, middle + [open]);
    calls := [open] + (middle + [open]);
    assert [open] + [] == [open];
    assert Run(c, calls) == Step(second, open).0;
    assert 1 in first.fds.Keys;
    DescriptorAliased(Step(second, open).0, path, 1);
  }

  lemma {:induction false} OpensInOpenCloseRun(path: string, from: int, n: nat)
    ensures OpensIn(OpenCloseRun(path, from, n)) == n
    decreases n
  {
    if n > 0 {
      var rest := OpenCloseRun(path, from + 1, n - 1);
      OpensInOpenCloseRun(path, from + 1, n - 1);
      assert OpenCloseRun(path, from, n)[1..] == [Close(WithFlag(from))] + rest;
      assert ([Close(WithFlag(from))] + rest)[1..] == rest;
    }
  }

  /** There is a run in which the 2^30th open does: one file opened and closed again and again. */
  lemma BoundIsExact(c: Context, path: string) returns (calls: seq<Call>)
    requires Invariant(c) && Openable(c, path) && c.fds == map[] && c.nextFd == 1
    ensures Legal(c, calls) && OpensIn(calls) == FD_FLAG - 1
    ensures var later := Run(c, calls);
      && Returns(later, Open(path, true))
      && Step(later, Open(path, true)).1 == NewFd(FD_FLAG)
      && LookupFd(Step(later, Open(path, true)).0, FD_FLAG) == FH.None
  {
    hide Invariant, Step, Returns, LookupFd, OpenCloseRun;
    calls := OpenCloseRun(path, 1, FD_FLAG - 1);
    OpenCloseCounts(c, path, FD_FLAG - 1);
    OpensInOpenCloseRun(path, 1, FD_FLAG - 1);
    StillOpenable(c, Run(c, calls), path);
    DescriptorLost(Run(c, calls), path);
  }

  /** A call that concerns descriptor number k. */
  ghost predicate Concerns(c: Context, call: Call, k: int) {
    || (call.Read? && LookupFd(c, call.fd) == FH.Some(k))
    || (call.Lseek? && LookupFd(c, call.fd) == FH.Some(k))
    || (call.Close? && LookupFd(c, call.fd) == FH.Some(k))
    || (call.UnmountHandle? && k in c.fds && call.handle == c.fds[k].owner)
    || call.Unmount?
  }

  /** Nothing else moves an open file's position: not preads, other files, mounts or other unmounts. */
  lemma OthersLeaveDescriptorAlone(c: Context, call: Call, k: int)
    requires Invariant(c) && Returns(c, call) && k in c.fds && !Concerns(c, call, k)
    ensures k in Step(c, call).0.fds && Step(c, call).0.fds[k] == c.fds[k]
  {
    hide Owner, FieldName, Prepared, HasFlag, FH.PreadBytes, Distinct, DirPlaced;
  }

  /** A descriptor behaves as its handle does: reads, preads and seeks give the handle's answers. */
  lemma DescriptorIsHandle(c: Context, call: Call, k: int)
    requires Invariant(c) && Returns(c, call)
    requires (call.Read? && call.grant.Some?) || (call.Pread? && !call.fails) || (call.Lseek? && call.fault == NoFault)
    requires LookupFd(c, call.fd) == FH.Some(k) && c.fds[k].alive
    ensures var (after, reply) := Step(c, call);
      var op := if call.Read? then FH.Read(call.count)
                else if call.Pread? then FH.Pread(call.count, call.at)
                else FH.Seek(call.offset, call.whence);
      var answer := if reply.Data? then FH.Data(reply.data)
                    else if reply.Offset? then FH.Position(reply.at)
                    else FH.Refused;
      && FH.Answers(c.fds[k].handle, op, answer)
      && k in after.fds
      && after.fds[k] == c.fds[k].(handle := FH.After(c.fds[k].handle, op, answer))
  {
    hide Owner, HasFlag, Distinct, DirPlaced;
  }

  /**
   * A seek that fails part-way leaves the descriptor dead, answering nothing more until it is closed,
   * or in front of its target; no other descriptor notices.
   */
  lemma FailedSeek(c: Context, call: Call, k: int)
    requires Invariant(c) && call.Lseek? && LookupFd(c, call.fd) == FH.Some(k) && c.fds[k].alive
    requires var t := FH.Target(c.fds[k].handle, call.offset, call.whence); t >= 0 && SeekFails(c.fds[k], t, call.fault)
    ensures var (after, reply) := Step(c, call);
      var t := FH.Target(c.fds[k].handle, call.offset, call.whence);
      && Invariant(after)
      && reply == Failed && after.errno == EINVAL
      && after.fds == c.fds[k := after.fds[k]]
      && LookupFd(after, call.fd) == FH.Some(k)
      && (if after.fds[k].alive then after.fds[k].handle.pos < t
          else forall count: nat, grant :: Step(after, Read(call.fd, count, grant)) == Fails(after, EIO))
  {
    StepKeepsInvariant(c, call);
    hide Invariant, HasFlag;
  }

  // ---- directories ---------------------------------------------------------------------

  /** d stays open throughout the run. */
  ghost predicate Stays(c: Context, calls: seq<Call>, d: int)
    requires Invariant(c) && Legal(c, calls)
    decreases |calls|
  {
    && d in c.dirs
    && (calls != [] ==> (StepKeepsInvariant(c, calls[0]); Stays(Step(c, calls[0]).0, calls[1..], d)))
  }

  lemma EntriesAreFixed(c: Context, call: Call, d: int)
    requires Invariant(c) && Returns(c, call) && d in c.dirs && d in Step(c, call).0.dirs
    ensures Step(c, call).0.dirs[d].entries == c.dirs[d].entries
  {
    hide Owner, FieldName, Prepared, HasFlag, FH.PreadBytes, Distinct, DirPlaced, NextFree;
  }

  lemma {:induction false} EntriesStayFixed(c: Context, calls: seq<Call>, d: int)
    requires Invariant(c) && Legal(c, calls) && Stays(c, calls, d)
    ensures d in Run(c, calls).dirs && Run(c, calls).dirs[d].entries == c.dirs[d].entries
    decreases |calls|
  {
    hide Invariant, Step, Returns;
    if calls != [] {
      StepKeepsInvariant(c, calls[0]);
      var after := Step(c, calls[0]).0;
      assert Stays(after, calls[1..], d);
      EntriesStayFixed(after, calls[1..], d);
      assert d in after.dirs;
      EntriesAreFixed(c, calls[0], d);
    }
  }

  /** A saved cookie leads back to the same entry after any run that keeps the stream open. */
  lemma CookieLeadsBack(c: Context, calls: seq<Call>, d: int)
    requires Invariant(c) && Legal(c, calls) && Stays(c, calls, d)
    ensures Step(c, Telldir(d)).1 == Offset(c.dirs[d].position)
    ensures var later := Run(c, calls);
      var sought := Step(later, Seekdir(d, c.dirs[d].position)).0;
      && Invariant(sought)
      && Step(sought, Readdir(d)).1 == Step(c, Readdir(d)).1
      && Step(sought, Telldir(d)).1 == Step(c, Telldir(d)).1
  {
    hide Invariant, Distinct, DirRead, DirSought, DirTold;
    EntriesStayFixed(c, calls, d);
    ToldIsPosition(c, d);
    var later := Run(c, calls);
    StepKeepsInvariant(later, Seekdir(d, c.dirs[d].position));
    BackAtCookie(c, later, d);
  }

  lemma ToldIsPosition(c: Context, d: int)
    requires d in c.dirs
    ensures DirTold(c, d).1 == Offset(c.dirs[d].position)
  {
  }

  lemma BackAtCookie(c: Context, later: Context, d: int)
    requires Invariant(c) && Invariant(later) && d in c.dirs && d in later.dirs
    requires later.dirs[d].entries == c.dirs[d].entries
    requires Invariant(DirSought(later, d, c.dirs[d].position).0)
    ensures var sought := DirSought(later, d, c.dirs[d].position).0;
      && DirRead(sought, d).1 == DirRead(c, d).1
      && DirTold(sought, d).1 == DirTold(c, d).1
  {
    hide FieldName, Distinct;
  }

  function ReaddirRun(d: int, n: nat): seq<Call> {
    if n == 0 then [] else [Readdir(d)] + ReaddirRun(d, n - 1)
  }

  /** What a scan of the listing hands out, entry by entry and then the end. */
  function Listing(entries: seq<DirEntry>): seq<Reply> {
    if entries == [] then [EndOfDirectory]
    else [Entry(Dirent(FieldName(entries[0].name), entries[0].isDirectory))] + Listing(entries[1..])
  }

  lemma {:induction false} ScanFrom(c: Context, d: int)
    requires Invariant(c) && d in c.dirs
    ensures var calls := ReaddirRun(d, |c.dirs[d].entries| - c.dirs[d].index + 1);
      Legal(c, calls) && Replies(c, calls) == Listing(c.dirs[d].entries[c.dirs[d].index..])
    decreases |c.dirs[d].entries| - c.dirs[d].index
  {
    hide FieldName, Distinct;
    var s := c.dirs[d];
    var n := |s.entries| - s.index;
    var calls := ReaddirRun(d, n + 1);
    var after := Step(c, Readdir(d)).0;
    StepKeepsInvariant(c, Readdir(d));
    assert calls[0] == Readdir(d) && calls[1..] == ReaddirRun(d, n);
    if n == 0 {
      assert s.entries[s.index..] == [];
      assert Legal(after, []);
    } else {
      assert s.entries[s.index..][1..] == s.entries[s.index + 1..];
      ScanFrom(after, d);
    }
  }

  /** After a rewind, reading to the end yields every entry once, in order. */
  lemma FullScan(c: Context, d: int)
    requires Invariant(c) && d in c.dirs
    ensures var rewound := Step(c, Rewinddir(d)).0;
      var calls := ReaddirRun(d, |c.dirs[d].entries| + 1);
      && Invariant(rewound)
      && Legal(rewound, calls)
      && Replies(rewound, calls) == Listing(c.dirs[d].entries)
  {
    StepKeepsInvariant(c, Rewinddir(d));
    var rewound := Step(c, Rewinddir(d)).0;
    ScanFrom(rewound, d);
    assert c.dirs[d].entries[0..] == c.dirs[d].entries;
  }

  /** A name of at most 255 characters and no NUL is handed out unchanged. */
  lemma {:induction false} ShortNamesAreKept(name: string)
    requires '\0' !in name && |name| <= NAME_MAX
    ensures FieldName(name) == name
    decreases |name|
  {
    if name != "" {
      ShortNamesAreKept(name[1..]);
      assert [name[0]] + name[1..] == name;
    }
  }
}
