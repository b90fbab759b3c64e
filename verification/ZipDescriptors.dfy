/**
 * A descriptor over a ZIP file: what the handle of src/backends/zip_backend.cpp does
 * on a call is the step that src/c_api/fs_context.cpp is modelled to take, with the
 * short read or the failure that libzip's answers amount to.
 */
module ZipDescriptors {
  import opened Bytes
  import opened ForeignCalls
  import opened FsRuns
  import opened FsState
  import FH = FileHandles
  import opened ZipHandles

  /** The table entry of a descriptor with this handle behind it. */
  function EntryOf(h: ZipFileHandle, owner: int): FdEntry
    reads h
  {
    FdEntry(h.View(), h.file != null, owner)
  }

  /** fd leads to table entry k, and the handle h is behind that. */
  ghost predicate Serves(c: Context, fd: int, k: int, h: ZipFileHandle)
    reads h
  {
    LookupFd(c, fd) == FH.Some(k) && c.fds[k] == EntryOf(h, c.fds[k].owner)
  }

  /** Only the entry of this descriptor changed, to what the handle now is. */
  ghost predicate Follows(after: Context, c: Context, k: int, h: ZipFileHandle)
    requires k in c.fds
    reads h
  {
    after.fds == c.fds[k := EntryOf(h, c.fds[k].owner)]
  }

  method Read(h: ZipFileHandle, ghost c: Context, ghost fd: int, ghost k: int, count: nat)
    returns (n: int, data: bytes, ghost grant: FH.Option<nat>)
    requires h.Valid() && Invariant(c) && Serves(c, fd, k, h)
    modifies h, h.file, h.lib`calls
    ensures h.Valid() && Follows(Step(c, Call.Read(fd, count, grant)).0, c, k, h)
    ensures Step(c, Call.Read(fd, count, grant)).1 == if n == -1 then Failed else Data(data)
    ensures grant == if grant.None? then FH.None else FH.Some(h.lib.grants(old(h.lib.calls)))
    ensures grant.None? ==> h.lib.fails(old(h.lib.calls))
  {
    hide Invariant;
    grant := if h.lib.fails(h.lib.calls) && h.file != null && !h.eof && count > 0 then FH.None
             else FH.Some(h.lib.grants(h.lib.calls));
    n, data := h.Read(count);
  }

  method Pread(h: ZipFileHandle, ghost c: Context, ghost fd: int, ghost k: int, count: nat, offset: int)
    returns (n: int, data: bytes, ghost fails: bool)
    requires h.Valid() && Invariant(c) && Serves(c, fd, k, h)
    modifies h.lib`calls
    ensures h.Valid() && Follows(Step(c, Call.Pread(fd, count, offset, fails)).0, c, k, h)
    ensures Step(c, Call.Pread(fd, count, offset, fails)).1 == if n == -1 then Failed else Data(data)
    ensures fails ==> FailedIn(h.lib, old(h.lib.calls), h.lib.calls)
  {
    hide Invariant, FailedIn;
    n, data := h.Pread(count, offset);
    fails := n == -1 && h.file != null && offset >= 0;
  }

  method Seek(h: ZipFileHandle, ghost c: Context, ghost fd: int, ghost k: int, offset: int, whence: FH.Whence)
    returns (r: int, ghost fault: SeekFault)
    requires h.Valid() && Invariant(c) && Serves(c, fd, k, h)
    modifies h, h.file, h.lib`calls
    ensures h.Valid() && Follows(Step(c, Call.Lseek(fd, offset, whence, fault)).0, c, k, h)
    ensures Step(c, Call.Lseek(fd, offset, whence, fault)).1 == if r == -1 then Failed else Offset(r)
    ensures fault != NoFault ==> FailedIn(h.lib, old(h.lib.calls), h.lib.calls)
  {
    hide Invariant;
    ghost var entry, t := c.fds[k], FH.TargetIn(h.size, h.currentPos, offset, whence);
    r := h.Seek(offset, whence);
    fault := if r != -1 || !entry.alive || t == -1 then NoFault
             else if h.file == null then Dies
             else StopsAt(h.currentPos);
  }
}
