/**
 * What the C API of src/c_api/fs_context.cpp answers, said of replies and errno values:
 * where seeks lead, which bytes come back, which numbers are handed out, and when a call
 * is refused.
 */
module FsLaws {
  import opened Bytes
  import opened MountTable
  import opened FsState
  import opened FsRuns
  import FH = FileHandles

  // ---------------------------------------------------------------------
  // Descriptors
  // ---------------------------------------------------------------------

  /** fd is the external number of table entry k. */
  ghost predicate Denotes(fd: int, k: int) {
    0 <= k < 0x4000_0000 && fd == 0x4000_0000 + k
  }

  lemma DescriptorIff(c: Context, fd: int, k: int)
    requires Denotes(fd, k)
    ensures LookupFd(c, fd) == if k in c.fds then FH.Some(k) else FH.None
  {
  }

  /** The numbers a process has of its own, from 0 up to 2^30, are never descriptors of the library. */
  lemma ForeignNumbers(c: Context, fd: int)
    requires 0 <= fd < 0x4000_0000
    ensures LookupFd(c, fd) == FH.None
  {
  }

  /** An open in a context that has used no number yet from its counter on. */
  lemma NextDescriptor(c: Context, call: Call)
    requires Invariant(c) && Returns(c, call) && call.Open? && c.nextFd !in c.fds && c.nextFd < 0x4000_0000
    ensures var (after, reply) := Step(c, call);
      if reply.NewFd? then reply.fd == 0x4000_0000 + c.nextFd && after.nextFd == c.nextFd + 1
                           && after.fds.Keys == c.fds.Keys + {c.nextFd}
      else reply == Failed && after.nextFd == c.nextFd && after.fds == c.fds
  {
    hide Owner;
    NextFreeIsUnique(c.fds, c.nextFd, NextFree(c.fds, c.nextFd), c.nextFd);
  }

  /** A number in use is passed over: the next free one up to 2^28 - 1, and from 1 again if there is none. */
  lemma PassedOver(fds: map<int, FdEntry>, from: int, fd: int)
    requires 1 <= from && from in fds && HasRoom(fds, from)
    ensures NextFree(fds, from) == fd <==>
      && 1 <= fd <= 0x0FFF_FFFF && fd !in fds
      && if from < fd then (forall k :: from <= k < fd ==> k in fds)
         else (forall k :: from <= k <= 0x0FFF_FFFF || 1 <= k < fd ==> k in fds)
  {
    if && 1 <= fd <= 0x0FFF_FFFF && fd !in fds
       && if from < fd then (forall k :: from <= k < fd ==> k in fds)
          else (forall k :: from <= k <= 0x0FFF_FFFF || 1 <= k < fd ==> k in fds)
    {
      NextFreeIsUnique(fds, from, NextFree(fds, from), fd);
    }
  }

  /** How many of the replies are descriptors. */
  function Opened(replies: seq<Reply>): nat {
    if replies == [] then 0 else (if replies[0].NewFd? then 1 else 0) + Opened(replies[1..])
  }

  /** Opens in a row, from a context whose numbers all lie below its counter, count up. */
  lemma {:induction false} OpensCountUp(c: Context, calls: seq<Call>, i: nat)
    requires Invariant(c) && Legal(c, calls) && i < |calls| && forall j :: 0 <= j < |calls| ==> calls[j].Open?
    requires c.nextFd + |calls| <= 0x4000_0000 && forall fd :: fd in c.fds ==> fd < c.nextFd
    ensures var replies := Replies(c, calls);
      if replies[i].NewFd? then replies[i].fd == 0x4000_0000 + c.nextFd + Opened(replies[..i]) else replies[i] == Failed
    decreases |calls|
  {
    hide Invariant;
    StepKeepsInvariant(c, calls[0]);
    NextDescriptor(c, calls[0]);
    var (after, reply) := Step(c, calls[0]);
    hide Step;
    var replies := Replies(c, calls);
    assert replies == [reply] + Replies(after, calls[1..]);
    if i > 0 {
      OpensCountUp(after, calls[1..], i - 1);
      assert replies[..i] == [reply] + Replies(after, calls[1..])[..i - 1];
      assert replies[..i][1..] == Replies(after, calls[1..])[..i - 1];
    }
  }

  /** A call that fails leaves everything but errno as it was. */
  ghost predicate RefusedWith(c: Context, call: Call, e: Errno)
    requires Invariant(c) && Returns(c, call)
  {
    Step(c, call) == (c.(errno := e), Failed)
  }

  // ---------------------------------------------------------------------
  // Seeking and reading
  // ---------------------------------------------------------------------

  ghost function SeekReply(c: Context, fd: int, offset: int, whence: FH.Whence): Reply
    requires Invariant(c)
  {
    Step(c, Lseek(fd, offset, whence, NoFault)).1
  }

  /** Where a seek leads that does not fail part-way. */
  lemma SeekLeads(c: Context, fd: int, k: int, t: int)
    requires Invariant(c) && Denotes(fd, k) && k in c.fds && c.fds[k].alive
    ensures var size, pos := |c.fds[k].handle.content|, c.fds[k].handle.pos;
      && (SeekReply(c, fd, t, FH.Set) == if 0 <= t <= size then Offset(t) else Failed)
      && Step(c, Lseek(fd, t, FH.Cur, NoFault)) == Step(c, Lseek(fd, pos + t, FH.Set, NoFault))
      && Step(c, Lseek(fd, t, FH.End, NoFault)) == Step(c, Lseek(fd, size + t, FH.Set, NoFault))
      && (t < 0 || t > size ==> RefusedWith(c, Lseek(fd, t, FH.Set, NoFault), EINVAL))
      && RefusedWith(c, Lseek(fd, t, FH.Other, NoFault), EINVAL)
  {
    DescriptorIff(c, fd, k);
    hide HasFlag, Invariant;
  }

  /** A seek that answers was not disturbed: it did what it does without a fault. */
  lemma AnsweredSeek(c: Context, fd: int, t: int, whence: FH.Whence, fault: SeekFault)
    requires Invariant(c) && Step(c, Lseek(fd, t, whence, fault)).1.Offset?
    ensures Step(c, Lseek(fd, t, whence, fault)) == Step(c, Lseek(fd, t, whence, NoFault))
  {
    hide HasFlag, Invariant;
  }

  datatype Asked = Asked(count: nat, grant: nat)

  /** Reads of one descriptor, one after the other: what they deliver together. */
  ghost function Delivered(c: Context, fd: int, asked: seq<Asked>): bytes
    requires Invariant(c)
    decreases |asked|
  {
    if asked == [] then []
    else
      var call := Read(fd, asked[0].count, FH.Some(asked[0].grant));
      StepKeepsInvariant(c, call);
      var (after, reply) := Step(c, call);
      (if reply.Data? then reply.data else []) + Delivered(after, fd, asked[1..])
  }

  /** After a seek to t, whatever reads follow, short ones included, deliver the content from t on. */
  lemma SeekThenRead(c: Context, fd: int, k: int, t: nat, asked: seq<Asked>)
    requires Invariant(c) && Denotes(fd, k) && k in c.fds && c.fds[k].alive && t <= |c.fds[k].handle.content|
    ensures var after := Step(c, Lseek(fd, t, FH.Set, NoFault)).0;
      && Invariant(after)
      && Delivered(after, fd, asked) <= c.fds[k].handle.content[t..]
  {
    var call := Lseek(fd, t, FH.Set, NoFault);
    StepKeepsInvariant(c, call);
    DescriptorIff(c, fd, k);
    hide HasFlag, Invariant;
    ReadsDeliver(Step(c, call).0, fd, k, asked);
  }

  lemma {:induction false} ReadsDeliver(c: Context, fd: int, k: int, asked: seq<Asked>)
    requires Invariant(c) && Denotes(fd, k) && k in c.fds && c.fds[k].alive
    ensures c.fds[k].handle.pos <= |c.fds[k].handle.content|
    ensures Delivered(c, fd, asked) <= c.fds[k].handle.content[c.fds[k].handle.pos..]
    decreases |asked|
  {
    var h := c.fds[k].handle;
    assert FH.Placed(h);
    if asked != [] {
      var call := Read(fd, asked[0].count, FH.Some(asked[0].grant));
      StepKeepsInvariant(c, call);
      DescriptorIff(c, fd, k);
      hide HasFlag, Invariant;
      var (after, reply) := Step(c, call);
      var n := |reply.data|;
      ReadsDeliver(after, fd, k, asked[1..]);
      assert h.content[h.pos..] == reply.data + h.content[h.pos + n..];
    }
  }

  /** A read that is not cut short delivers as much as is asked for and there; a short one at least a byte. */
  lemma ReadAmount(c: Context, fd: int, k: int, count: nat, grant: nat)
    requires Invariant(c) && Denotes(fd, k) && k in c.fds && c.fds[k].alive
    ensures var reply := Step(c, Read(fd, count, FH.Some(grant))).1;
      var left := |c.fds[k].handle.content| - c.fds[k].handle.pos;
      && left >= 0 && reply.Data?
      && |reply.data| <= count && |reply.data| <= left
      && (reply.data == [] ==> count == 0 || left == 0)
      && (grant == 0 || grant >= count || grant >= left ==> |reply.data| == if count <= left then count else left)
      && (0 < grant <= count && grant <= left ==> |reply.data| == grant)
  {
    assert FH.Placed(c.fds[k].handle);
    DescriptorIff(c, fd, k);
    hide HasFlag, Invariant;
  }

  /** A pread delivers exactly the bytes that lie in the range and in the file, and moves nothing. */
  lemma PreadDelivers(c: Context, fd: int, k: int, count: nat, at: nat)
    requires Invariant(c) && Denotes(fd, k) && k in c.fds && c.fds[k].alive
    ensures var (after, reply) := Step(c, Pread(fd, count, at, false));
      var s := c.fds[k].handle.content;
      && reply.Data? && after.fds == c.fds
      && (forall i :: 0 <= i < |reply.data| ==> at + i < |s| && reply.data[i] == s[at + i])
      && |reply.data| <= count
      && (|reply.data| < count ==> at + |reply.data| >= |s|)
  {
    DescriptorIff(c, fd, k);
    hide HasFlag, Invariant;
  }

  // ---------------------------------------------------------------------
  // Refusals
  // ---------------------------------------------------------------------

  ghost predicate RefusedRead(c: Context, fd: int, k: int, count: nat, grant: FH.Option<nat>)
    requires Invariant(c)
  {
    var call := Read(fd, count, grant);
    && (k !in c.fds ==> RefusedWith(c, call, EBADF))
    && (k in c.fds && (grant.None? || !c.fds[k].alive) ==> RefusedWith(c, call, EIO))
  }

  ghost predicate RefusedPread(c: Context, fd: int, k: int, count: nat, at: int, fails: bool)
    requires Invariant(c)
  {
    var call := Pread(fd, count, at, fails);
    && (k !in c.fds ==> RefusedWith(c, call, EBADF))
    && (k in c.fds && at < 0 ==> RefusedWith(c, call, EINVAL))
    && (k in c.fds && at >= 0 && (fails || !c.fds[k].alive) ==> RefusedWith(c, call, EIO))
  }

  ghost predicate RefusedSeek(c: Context, fd: int, k: int, offset: int, whence: FH.Whence, fault: SeekFault)
    requires Invariant(c)
  {
    var call := Lseek(fd, offset, whence, fault);
    && (k !in c.fds ==> RefusedWith(c, call, EBADF))
    && (k in c.fds && !c.fds[k].alive ==> RefusedWith(c, call, EINVAL))
  }

  /** Calls on a descriptor: which are refused, and with what errno. */
  lemma DescriptorRefusals(c: Context, fd: int, k: int)
    requires Invariant(c) && Denotes(fd, k)
    ensures forall count, grant :: RefusedRead(c, fd, k, count, grant)
    ensures forall count, at, fails :: RefusedPread(c, fd, k, count, at, fails)
    ensures forall offset, whence, fault :: RefusedSeek(c, fd, k, offset, whence, fault)
    ensures if k in c.fds then Step(c, Close(fd)) == (c.(fds := c.fds - {k}, errno := OK), Done)
            else RefusedWith(c, Close(fd), EBADF)
  {
    DescriptorIff(c, fd, k);
    hide HasFlag, Invariant, FH.Clamped, FH.PreadBytes;
  }

  /** Calls on a directory stream. */
  lemma DirectoryRefusals(c: Context, d: int)
    requires Invariant(c) && d !in c.dirs
    ensures RefusedWith(c, Readdir(d), EBADF) && RefusedWith(c, Closedir(d), EBADF) && RefusedWith(c, Rewinddir(d), EBADF)
    ensures RefusedWith(c, Telldir(d), EBADF) && forall pos :: RefusedWith(c, Seekdir(d, pos), EBADF)
  {
    hide Invariant;
  }

  /** What the calls on an open stream that do not read it do. */
  lemma StreamCalls(c: Context, d: int)
    requires Invariant(c) && d in c.dirs
    ensures Step(c, Closedir(d)) == (c.(dirs := c.dirs - {d}, errno := OK), Done)
    ensures Step(c, Rewinddir(d)) == Step(c, Seekdir(d, 0))
    ensures Step(c, Telldir(d)) == (c.(errno := OK), Offset(c.dirs[d].index))
  {
  }

  lemma UnmountRefusal(c: Context, h: int)
    requires Invariant(c)
    ensures if h in c.mounts then Step(c, UnmountHandle(h)).1 == Done else RefusedWith(c, UnmountHandle(h), ENODEV)
  {
    hide Invariant;
  }

  lemma SeekdirRefusal(c: Context, d: int, pos: int)
    requires Invariant(c) && d in c.dirs
    ensures pos < 0 <==> RefusedWith(c, Seekdir(d, pos), EINVAL)
    ensures pos >= 0 ==> Step(c, Seekdir(d, pos)).1 == Done
  {
    hide Invariant;
  }

  /** Opening: refused without mounts, for writing, without an owner, and by the backend, in this order. */
  lemma OpenRefusals(c: Context, path: string, readOnly: bool)
    requires Invariant(c) && Returns(c, Open(path, readOnly))
    ensures var h, call := Owner(c.mounts, path), Open(path, readOnly);
      if c.mounts == map[] then RefusedWith(c, call, ENODEV)
      else if !readOnly then RefusedWith(c, call, EROFS)
      else if h !in c.mounts then RefusedWith(c, call, ENOENT)
      else if c.mounts[h].fs.open(path).Refused? then RefusedWith(c, call, c.mounts[h].fs.open(path).errno)
      else Step(c, call).1.NewFd? && Step(c, call).0.errno == OK
  {
    assert -1 !in c.mounts;
    hide Invariant, Owner, HasFlag;
  }

  lemma OpendirRefusals(c: Context, path: string)
    requires Invariant(c)
    ensures var h, call := Owner(c.mounts, path), Opendir(path);
      if c.mounts == map[] then RefusedWith(c, call, ENODEV)
      else if h !in c.mounts then RefusedWith(c, call, ENOENT)
      else if c.mounts[h].fs.list(path).Refused? then RefusedWith(c, call, c.mounts[h].fs.list(path).errno)
      else Step(c, call).1 == NewDir(c.nextDirId) && Step(c, call).0.errno == OK
  {
    assert -1 !in c.mounts;
    hide Invariant, Owner;
  }

  // ---------------------------------------------------------------------
  // Mounting
  // ---------------------------------------------------------------------

  /** A mount point in use, or none given where one is needed, is refused before anything is read. */
  lemma PointRefusals(c: Context, w: World, source: Source, point: string)
    requires Invariant(c)
    ensures point == "" ==> RefusedWith(c, MountArchive(w, source, point), EINVAL)
    ensures point != "" && (exists h :: h in c.mounts && c.mounts[h].mountPoint == point) ==>
      RefusedWith(c, MountArchive(w, source, point), EEXIST)
    ensures c.mounts != map[] ==> RefusedWith(c, Init(w, source, point), EEXIST)
    ensures c.mounts == map[] && point != "" ==>
      Step(c, Init(w, source, point)).1 == Step(c, MountArchive(w, source, point)).1
  {
    hide Invariant, Prepared;
  }

  /** A new mount gets the next handle, its own point, and what the backend made of the source. */
  lemma MountedIs(c: Context, w: World, source: Source, point: string)
    requires Invariant(c)
    ensures var (after, reply) := Step(c, MountArchive(w, source, point));
      reply == NewHandle(c.nextHandle) ==>
        && after.nextHandle == c.nextHandle + 1
        && c.nextHandle in after.mounts && after.mounts[c.nextHandle].mountPoint == point
        && (forall h :: h in c.mounts ==> h in after.mounts && after.mounts[h] == c.mounts[h])
        && after.fds == c.fds && after.dirs == c.dirs && after.compat == c.compat
    ensures Step(c, MountArchive(w, source, point)).1 in {NewHandle(c.nextHandle), Failed}
  {
    hide Prepared;
  }

  /** The single-mount entry points mount as the others do, and remember the handle. */
  lemma InitIs(c: Context, w: World, source: Source, point: string)
    requires Invariant(c) && c.mounts == map[] && point != ""
    ensures var (after, reply) := Step(c, Init(w, source, point));
      var (mounted, answer) := Step(c, MountArchive(w, source, point));
      reply == answer && after == if reply == Failed then mounted else mounted.(compat := c.nextHandle)
  {
    hide Invariant, Prepared;
  }

  /** A buffer is mounted as what the backend makes of its bytes. */
  lemma BufferIs(c: Context, w: World, data: bytes, point: string)
    requires Invariant(c) && point != "" && forall h :: h in c.mounts ==> c.mounts[h].mountPoint != point
    ensures var call := MountArchive(w, Memory(data), point);
      match w.fromMemory(data, point)
      case Ready(fs) => Step(c, call).1 == NewHandle(c.nextHandle)
                        && Step(c, call).0.mounts == c.mounts[c.nextHandle := Mount(c.nextHandle, point, fs)]
      case NoBackend(unsupported) => RefusedWith(c, call, if unsupported then ENOTSUP else EINVAL)
      case MountFails => RefusedWith(c, call, EIO)
  {
    hide Invariant;
  }

  /** A part of a file is mounted as the bytes of that part would be from memory. */
  lemma RegionIsMemory(c: Context, w: World, path: string, offset: u64, length: u64, point: string)
    requires Invariant(c) && (offset != 0 || length != 0) && w.file(path).Readable?
    ensures var s := w.file(path).content;
      var end := if length == 0 then |s| else offset + length;
      var call := MountArchive(w, SourceAt(path, offset, length), point);
      if point == "" then RefusedWith(c, call, EINVAL)
      else if exists h :: h in c.mounts && c.mounts[h].mountPoint == point then RefusedWith(c, call, EEXIST)
      else if !(offset < end <= |s|) || end - offset > 0x7FFF_FFFF_FFFF_FFFF then RefusedWith(c, call, EINVAL)
      else Step(c, call) == Step(c, MountArchive(w, Memory(s[offset..end]), point))
  {
    hide Invariant;
  }

  /** Without offset and length the file itself is handed to the backend. */
  lemma WholeIsFile(c: Context, w: World, path: string, point: string)
    requires Invariant(c) && point != "" && forall h :: h in c.mounts ==> c.mounts[h].mountPoint != point
    ensures var call, made := MountArchive(w, SourceAt(path, 0, 0), point), w.fromFile(path, point);
      match made
      case Ready(fs) => Step(c, call).1 == NewHandle(c.nextHandle)
                        && Step(c, call).0.mounts == c.mounts[c.nextHandle := Mount(c.nextHandle, point, fs)]
      case NoBackend(unsupported) => RefusedWith(c, call, if unsupported then ENOTSUP else EINVAL)
      case MountFails => RefusedWith(c, call, EIO)
  {
    hide Invariant;
  }

  /** What cannot be mounted from a part of a file, and why. */
  lemma RegionRefusals(c: Context, w: World, path: string, offset: u64, length: u64, point: string)
    requires Invariant(c) && point != "" && (forall h :: h in c.mounts ==> c.mounts[h].mountPoint != point)
    requires offset != 0 || length != 0
    ensures var call := MountArchive(w, SourceAt(path, offset, length), point);
      && (w.file(path).Absent? ==> RefusedWith(c, call, ENOENT))
      && (w.file(path).Unopenable? && offset + length <= w.file(path).size && offset < w.file(path).size
            && (if length == 0 then w.file(path).size - offset else length) <= 0x7FFF_FFFF_FFFF_FFFF ==>
          RefusedWith(c, call, ENOENT))
      && (w.file(path).Unreadable? && offset + length <= w.file(path).size && offset < w.file(path).size
            && (if length == 0 then w.file(path).size - offset else length) <= 0x7FFF_FFFF_FFFF_FFFF ==>
          RefusedWith(c, call, EIO))
  {
    hide Invariant;
  }

  /** Unmounting everything: only the handle counter goes on. */
  lemma UnmountResets(c: Context)
    requires Invariant(c)
    ensures var (after, reply) := Step(c, Unmount);
      && reply == Done && after.mounts == map[] && after.fds == map[] && after.dirs == map[]
      && after.nextFd == 1 && after.nextDirId == 1 && after.compat == -1 && after.nextHandle == c.nextHandle
      && after == Initial().(nextHandle := c.nextHandle, errno := c.errno)
  {
    hide Invariant;
  }

  // ---------------------------------------------------------------------
  // Directory entries
  // ---------------------------------------------------------------------

  /** What readdir hands out of a name: as much as comes before a NUL and fits 255 characters. */
  lemma NameHandedOut(c: Context, d: int)
    requires Invariant(c) && d in c.dirs && c.dirs[d].index < |c.dirs[d].entries|
    ensures var (after, reply) := Step(c, Readdir(d));
      var e := c.dirs[d].entries[c.dirs[d].index];
      && reply.Entry? && reply.entry.isDirectory == e.isDirectory
      && reply.entry.name <= e.name && '\0' !in reply.entry.name && |reply.entry.name| <= 255
      && (|reply.entry.name| < |e.name| ==> |reply.entry.name| == 255 || e.name[|reply.entry.name|] == '\0')
      && d in after.dirs && after.dirs[d].index == c.dirs[d].index + 1
  {
    UpToNulIs(c.dirs[d].entries[c.dirs[d].index].name);
    hide Invariant, UpToNul;
  }

  /** After a seekdir the entry of that number comes next, or the end if there are not so many. */
  lemma SeekdirLeads(c: Context, d: int, pos: nat)
    requires Invariant(c) && d in c.dirs
    ensures var after := Step(c, Seekdir(d, pos)).0;
      && Invariant(after) && d in after.dirs && after.dirs[d].entries == c.dirs[d].entries
      && if pos < |c.dirs[d].entries| then after.dirs[d].index == pos
         else Step(after, Readdir(d)) == (after.(errno := OK), EndOfDirectory)
  {
    StepKeepsInvariant(c, Seekdir(d, pos));
    hide Invariant;
  }

  lemma {:induction false} UpToNulIs(name: string)
    ensures UpToNul(name) <= name && '\0' !in UpToNul(name)
    ensures |UpToNul(name)| < |name| ==> name[|UpToNul(name)|] == '\0'
    decreases |name|
  {
    if name != "" && name[0] != '\0' {
      UpToNulIs(name[1..]);
    }
  }
}
