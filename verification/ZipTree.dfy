/**
 * Extracting a whole ZIP tree to disk: the backend's listing and opening
 * (src/backends/zip_backend.cpp) under the recursive walk of extract_all
 * (src/c_api/fs_context.cpp).
 */
module ZipTree {
  import opened Bytes
  import opened ForeignCalls
  import opened MountTable
  import opened ZipNames
  import opened ZipHandles
  import opened ZipWalks
  import FH = FileHandles

  const COPY_BUFFER := 8192

  datatype Archive = Archive(names: seq<string>, entries: seq<ZipHandles.Entry>)

  predicate OneEntryEach(z: Archive) {
    |z.names| == |z.entries|
  }

  /** libzip reports enough of every size for reads to reach the end. */
  ghost predicate AllReadable(z: Archive) {
    OneEntryEach(z) && forall i :: 0 <= i < |z.entries| ==> Readable(z.entries[i])
  }

  function ContentOf(z: Archive, name: string): bytes
    requires OneEntryEach(z) && name in z.names
  {
    z.entries[IndexOf(z.names, name)].content
  }

  // ---------------------------------------------------------------------
  // Directory iterator
  // ---------------------------------------------------------------------

  /** The directory path as the iterator compares it: a trailing slash, no leading one. */
  function NormalizedDir(path: string): string {
    WithoutSlash(if path != "" && path[|path| - 1] != '/' then path + "/" else path)
  }

  class ZipDirectoryIterator {
    var entries: seq<DirEntry>
    var currentIndex: nat

    /** Scans all entry names for the immediate children of one directory. */
    constructor (names: seq<string>, path: string)
      ensures entries == Listing(names, NormalizedDir(path)) && currentIndex == 0
    {
      entries, currentIndex := [], 0;
      new;
      var dir := path;
      if dir != "" && dir[|dir| - 1] != '/' {
        dir := dir + "/";
      }
      if dir != "" && dir[0] == '/' {
        dir := dir[1..];
      }
      for i := 0 to |names|
        invariant entries == Listing(names[..i], dir) && currentIndex == 0
      {
        hide ChildOf, Added;
        assert names[..i + 1][..i] == names[..i];
        Consider(names[i], dir);
      }
      assert names[..|names|] == names;
    }

    /** One entry name of the scan. */
    method Consider(full: string, dir: string)
      modifies this`entries
      ensures entries == match ChildOf(full, dir) case NoChild => old(entries) case Child(e) => Added(old(entries), e)
    {
      hide Added, FirstSlash;
      if dir == "" {
        var slash := FirstSlash(full);
        if slash == -1 {
          AddEntry(full, false);
        } else if slash == |full| - 1 {
          AddEntry(full[..slash], true);
        }
      } else if !(|full| <= |dir| || full[..|dir|] != dir) {
        var relative := full[|dir|..];
        var slash := FirstSlash(relative);
        if slash == -1 {
          AddEntry(relative, false);
        } else if slash == |relative| - 1 {
          AddEntry(relative[..slash], true);
        }
      }
    }

    method AddEntry(name: string, isDir: bool)
      modifies this`entries
      ensures entries == Added(old(entries), DirEntry(name, isDir))
    {
      for i := 0 to |entries|
        invariant forall k :: 0 <= k < i ==> entries[k].name != name
      {
        if entries[i].name == name { return; }
      }
      entries := entries + [DirEntry(name, isDir)];
    }

    predicate HasNext()
      reads this
    {
      currentIndex < |entries|
    }

    method Next() returns (e: DirEntry)
      requires HasNext()
      modifies this`currentIndex
      ensures e == entries[old(currentIndex)] && currentIndex == old(currentIndex) + 1
    {
      e := entries[currentIndex];
      currentIndex := currentIndex + 1;
    }
  }

  datatype ListOutcome = Listed | NotADirectory | NotFound

  /** list_directory. */
  method ListDirectory(z: Archive, mountPoint: string, path: string) returns (r: ListOutcome, it: ZipDirectoryIterator?)
    ensures r.Listed? <==> Listable(z.names, mountPoint, path)
    ensures r.Listed? <==> it != null
    ensures it != null ==> fresh(it) && it.currentIndex == 0 && it.entries == EntriesAt(z.names, mountPoint, path)
    ensures r == NotADirectory ==> Locate(z.names, Strip(mountPoint, path)) >= 0
    ensures r == NotFound ==> Locate(z.names, Strip(mountPoint, path)) == -1
  {
    var relative := Strip(mountPoint, path);
    if relative == "" || relative == "/" {
      it := new ZipDirectoryIterator(z.names, relative);
      return Listed, it;
    }
    var dirPath := relative;
    if dirPath[|dirPath| - 1] != '/' {
      dirPath := dirPath + "/";
    }
    if Locate(z.names, dirPath) >= 0 {
      it := new ZipDirectoryIterator(z.names, dirPath);
      return Listed, it;
    }
    if Locate(z.names, relative) >= 0 {
      return NotADirectory, null;
    }
    return NotFound, null;
  }

  /** open: null when there is no such file, or when libzip cannot open it. */
  method OpenFile(z: Archive, mountPoint: string, lib: Foreign, path: string) returns (h: ZipFileHandle?)
    requires OneEntryEach(z)
    modifies lib`calls
    ensures lib.calls >= old(lib.calls)
    ensures h == null ==> !Openable(z.names, mountPoint, path) || FailedIn(lib, old(lib.calls), lib.calls)
    ensures h != null ==> Openable(z.names, mountPoint, path)
    ensures h != null ==>
      && fresh(h) && h.file != null && fresh(h.file) && h.lib == lib
      && h.InSync() && h.currentPos == 0 && !h.eof
      && h.entry == z.entries[Locate(z.names, Strip(mountPoint, path))]
  {
    var at := Locate(z.names, Strip(mountPoint, path));
    if at < 0 { return null; }
    var name := z.names[at];
    if name != "" && name[|name| - 1] == '/' { return null; }
    var stream := OpenStream(lib, z.entries[at]);
    if stream == null { return null; }
    h := new ZipFileHandle(z.entries[at], stream);
  }

  // ---------------------------------------------------------------------
  // Disk
  // ---------------------------------------------------------------------

  /** The extraction target. `writes` counts how often each file was created. */
  class Disk {
    const host: Foreign
    var files: map<string, bytes>
    var dirs: set<string>
    ghost var writes: multiset<string>

    constructor (host: Foreign, files: map<string, bytes>, dirs: set<string>)
      ensures this.host == host && this.files == files && this.dirs == dirs && writes == multiset{}
    {
      this.host, this.files, this.dirs := host, files, dirs;
      writes := multiset{};
    }

    predicate Exists(path: string)
      reads this
    {
      path in files || path in dirs
    }

    /** create_directories; the empty path names nothing that could be created. */
    method CreateDirectories(path: string) returns (ok: bool)
      requires !Exists(path)
      modifies this`dirs, host`calls
      ensures host.calls == old(host.calls) + 1
      ensures ok <==> path != "" && !host.fails(old(host.calls))
      ensures dirs == if ok then old(dirs) + {path} else old(dirs)
    {
      var grant;
      ok, grant := host.Call();
      if path == "" { return false; }
      if ok {
        dirs := dirs + {path};
      }
    }

    /** Opens parent/name for writing and truncates it; needs the parent to be a directory. */
    method Create(parent: string, name: string) returns (ok: bool)
      modifies this`files, this`writes, host`calls
      ensures host.calls == old(host.calls) + 1
      ensures ok <==> parent in dirs && parent + "/" + name !in dirs && !host.fails(old(host.calls))
      ensures files == if ok then old(files)[parent + "/" + name := []] else old(files)
      ensures writes == if ok then old(writes) + multiset{parent + "/" + name} else old(writes)
    {
      var grant;
      ok, grant := host.Call();
      if parent !in dirs || parent + "/" + name in dirs { return false; }
      if ok {
        files := files[parent + "/" + name := []];
        writes := writes + multiset{parent + "/" + name};
      }
    }

    method Append(path: string, data: bytes) returns (ok: bool)
      requires path in files
      modifies this`files, host`calls
      ensures host.calls == old(host.calls) + 1
      ensures ok <==> !host.fails(old(host.calls))
      ensures files == if ok then old(files)[path := old(files)[path] + data] else old(files)
    {
      var grant;
      ok, grant := host.Call();
      if ok {
        files := files[path := files[path] + data];
      }
    }
  }

  /** A call of libzip or of the host failed since these counts. */
  ghost predicate Faulted(lib: Foreign, host: Foreign, libCalls: nat, hostCalls: nat)
    reads lib, host
  {
    FailedIn(lib, libCalls, lib.calls) || FailedIn(host, hostCalls, host.calls)
  }

  lemma FaultedLater(lib: Foreign, host: Foreign, libCalls: nat, hostCalls: nat, libBefore: nat, hostBefore: nat)
    requires libCalls <= libBefore <= lib.calls && hostCalls <= hostBefore <= host.calls
    ensures Faulted(lib, host, libBefore, hostBefore) ==> Faulted(lib, host, libCalls, hostCalls)
  {
    FailedLater(lib, libCalls, libBefore, lib.calls);
    FailedLater(host, hostCalls, hostBefore, host.calls);
  }

  /** The copy loop: the file becomes what reading the entry to its end delivers. */
  method CopyOut(h: ZipFileHandle, disk: Disk, path: string) returns (ok: bool)
    requires h.InSync() && h.file != null && h.currentPos == 0 && !h.eof && h.lib != disk.host
    requires path in disk.files && disk.files[path] == []
    modifies h, h.file, h.lib`calls, disk`files, disk.host`calls
    ensures h.lib.calls >= old(h.lib.calls) && disk.host.calls >= old(disk.host.calls)
    ensures ok ==> disk.files == old(disk.files)[
      path := Drained(h.entry.content, h.size, 0, false, h.lib.grants, old(h.lib.calls), COPY_BUFFER)]
    ensures !ok ==> Faulted(h.lib, disk.host, old(h.lib.calls), old(disk.host.calls))
  {
    hide Drained, FailedIn;
    ghost var content, size, grants := h.entry.content, h.size, h.lib.grants;
    ghost var whole := Drained(content, size, 0, false, grants, h.lib.calls, COPY_BUFFER);
    assert [] + whole == whole;
    while true
      invariant h.InSync() && h.file == old(h.file) && h.size == size
      invariant h.lib.calls >= old(h.lib.calls) && disk.host.calls >= old(disk.host.calls)
      invariant path in disk.files && disk.files == old(disk.files)[path := disk.files[path]]
      invariant whole == disk.files[path] + Drained(content, size, h.currentPos, h.eof, grants, h.lib.calls, COPY_BUFFER)
      decreases |h.entry.content| - h.currentPos
    {
      ghost var pos, eof, libBefore, hostBefore := h.currentPos, h.eof, h.lib.calls, disk.host.calls;
      var n, data := h.Read(COPY_BUFFER);
      if n < 0 {
        OneFailed(h.lib, libBefore);
        FaultedLater(h.lib, disk.host, old(h.lib.calls), old(disk.host.calls), libBefore, hostBefore);
        return false;
      }
      DrainedStep(content, size, pos, eof, grants, libBefore, COPY_BUFFER);
      if n == 0 { break; }
      ghost var file := disk.files[path];
      ok := disk.Append(path, data);
      if !ok {
        OneFailed(disk.host, hostBefore);
        FaultedLater(h.lib, disk.host, old(h.lib.calls), old(disk.host.calls), libBefore, hostBefore);
        return false;
      }
      Regrouped(file, data, Drained(content, size, h.currentPos, h.eof, grants, h.lib.calls, COPY_BUFFER));
    }
    assert disk.files[path] + [] == disk.files[path];
    ok := true;
  }

  // ---------------------------------------------------------------------
  // What an extraction leaves behind
  // ---------------------------------------------------------------------

  /** The disk paths of the files among these entries. */
  ghost function Targets(dest: string, ns: set<string>): set<string> {
    set n | n in ns && IsFileName(n) :: PathOf(dest, n)
  }

  /** Every file among these entries is on disk with its full content. */
  ghost predicate Delivered(z: Archive, dest: string, ns: set<string>, files: map<string, bytes>)
    requires OneEntryEach(z)
  {
    forall n :: n in ns && IsFileName(n) && n in z.names ==>
      PathOf(dest, n) in files && files[PathOf(dest, n)] == ContentOf(z, n)
  }

  /** Every directory among these entries is there, unless a file stood in its place. */
  ghost predicate DirsMade(dest: string, ns: set<string>, files: map<string, bytes>, dirs: set<string>) {
    forall n :: n in ns && IsDirectoryName(n) ==> PathOf(dest, n) in dirs || PathOf(dest, n) in files
  }

  /** No other file changed. */
  ghost predicate OthersKept(before: map<string, bytes>, after: map<string, bytes>, dest: string, ns: set<string>) {
    forall p :: p !in Targets(dest, ns) ==> (p in after <==> p in before) && (p in after ==> after[p] == before[p])
  }

  /** No other directory was made. */
  ghost predicate OnlyArchiveDirs(z: Archive, dest: string, before: set<string>, after: set<string>) {
    && before <= after
    && (forall p :: p in after && p !in before ==> exists d :: d in z.names && IsDirectoryName(d) && p == PathOf(dest, d))
  }

  /** The disk is in the way: a file where the archive has a directory, or a directory where it has a file. */
  ghost predicate Clash(z: Archive, dest: string, files: map<string, bytes>, dirs: set<string>) {
    || dest in files
    || (exists d :: d in z.names && IsDirectoryName(d) && PathOf(dest, d) in files)
    || (exists f :: f in z.names && IsFileName(f) && PathOf(dest, f) in dirs)
  }

  lemma PathsDiffer(dest: string, a: string, b: string)
    requires a != "" && b != "" && IsFileName(a) && (IsFileName(b) || b != a + "/")
    ensures PathOf(dest, a) == PathOf(dest, b) ==> a == b
    ensures PathOf(dest, a) != dest
  {
    var x := if IsDirectoryName(b) then b[..|b| - 1] else b;
    assert PathOf(dest, a) == dest + "/" + a && PathOf(dest, b) == dest + "/" + x;
    assert IsDirectoryName(b) ==> b == x + "/";
    assert (dest + "/" + a)[|dest| + 1..] == a && (dest + "/" + x)[|dest| + 1..] == x;
    assert |PathOf(dest, a)| > |dest|;
  }

  lemma TargetsApart(dest: string, ns: set<string>, f: string)
    requires f !in ns && IsFileName(f)
    ensures PathOf(dest, f) !in Targets(dest, ns)
  {
    if PathOf(dest, f) in Targets(dest, ns) {
      var g :| g in ns && IsFileName(g) && PathOf(dest, g) == PathOf(dest, f);
      PathsDiffer(dest, f, g);
    }
  }

  lemma TargetsOfUnion(dest: string, a: set<string>, b: set<string>)
    requires a !! b
    ensures Targets(dest, a + b) == Targets(dest, a) + Targets(dest, b)
    ensures Targets(dest, a) !! Targets(dest, b)
    ensures multiset(Targets(dest, a + b)) == multiset(Targets(dest, a)) + multiset(Targets(dest, b))
  {
    forall p | p in Targets(dest, a) ensures p !in Targets(dest, b) {
      var f :| f in a && IsFileName(f) && PathOf(dest, f) == p;
      TargetsApart(dest, b, f);
    }
  }

  /** What the disk holds at one moment. */
  datatype Snapshot = Snapshot(files: map<string, bytes>, dirs: set<string>, writes: multiset<string>)

  ghost function Now(disk: Disk): Snapshot
    reads disk
  {
    Snapshot(disk.files, disk.dirs, disk.writes)
  }

  ghost predicate EntriesOf(z: Archive, ns: set<string>) {
    forall n :: n in ns ==> n in z.names
  }

  /** From before to after, exactly these entries were extracted: each file written once and in full, each directory there. */
  ghost predicate Extracted(z: Archive, dest: string, ns: set<string>, before: Snapshot, after: Snapshot)
    requires OneEntryEach(z)
  {
    && Delivered(z, dest, ns, after.files)
    && DirsMade(dest, ns, after.files, after.dirs)
    && OthersKept(before.files, after.files, dest, ns)
    && after.writes == before.writes + multiset(Targets(dest, ns))
    && OnlyArchiveDirs(z, dest, before.dirs, after.dirs)
  }

  lemma NothingExtracted(z: Archive, dest: string, s: Snapshot)
    requires OneEntryEach(z)
    ensures Extracted(z, dest, {}, s, s)
  {
    assert Targets(dest, {}) == {};
    assert multiset(Targets(dest, {})) == multiset{};
  }

  lemma DeliveredTwice(
    z: Archive, dest: string, a: set<string>, b: set<string>, before: map<string, bytes>, after: map<string, bytes>)
    requires OneEntryEach(z) && a !! b
    requires Delivered(z, dest, a, before) && Delivered(z, dest, b, after) && OthersKept(before, after, dest, b)
    ensures Delivered(z, dest, a + b, after)
  {
    hide ContentOf, PathOf, Targets, IsFileName;
    forall n | n in a + b && IsFileName(n) && n in z.names
      ensures PathOf(dest, n) in after && after[PathOf(dest, n)] == ContentOf(z, n)
    {
      if n in a {
        TargetsApart(dest, b, n);
      }
    }
  }

  /** A file that was there still is: it was kept or written. */
  lemma FilesStay(z: Archive, dest: string, b: set<string>, before: map<string, bytes>, after: map<string, bytes>, p: string)
    requires OneEntryEach(z) && EntriesOf(z, b) && p in before
    requires Delivered(z, dest, b, after) && OthersKept(before, after, dest, b)
    ensures p in after
  {
    hide ContentOf, PathOf, IsFileName;
    if p in Targets(dest, b) {
      var n :| n in b && IsFileName(n) && PathOf(dest, n) == p;
      assert n in z.names;
    }
  }

  lemma DirsMadeTwice(z: Archive, dest: string, a: set<string>, b: set<string>, s1: Snapshot, s2: Snapshot)
    requires OneEntryEach(z) && EntriesOf(z, b)
    requires DirsMade(dest, a, s1.files, s1.dirs) && DirsMade(dest, b, s2.files, s2.dirs)
    requires Delivered(z, dest, b, s2.files) && OthersKept(s1.files, s2.files, dest, b) && s1.dirs <= s2.dirs
    ensures DirsMade(dest, a + b, s2.files, s2.dirs)
  {
    hide PathOf, Delivered, OthersKept, IsDirectoryName;
    forall n | n in a && IsDirectoryName(n) ensures PathOf(dest, n) in s2.dirs || PathOf(dest, n) in s2.files {
      if PathOf(dest, n) in s1.files {
        FilesStay(z, dest, b, s1.files, s2.files, PathOf(dest, n));
      }
    }
  }

  lemma OthersKeptTwice(
    dest: string, a: set<string>, b: set<string>, s0: map<string, bytes>, s1: map<string, bytes>, s2: map<string, bytes>)
    requires Targets(dest, a + b) == Targets(dest, a) + Targets(dest, b)
    requires OthersKept(s0, s1, dest, a) && OthersKept(s1, s2, dest, b)
    ensures OthersKept(s0, s2, dest, a + b)
  {
    hide Targets;
  }

  lemma OnlyDirsTwice(z: Archive, dest: string, d0: set<string>, d1: set<string>, d2: set<string>)
    requires OnlyArchiveDirs(z, dest, d0, d1) && OnlyArchiveDirs(z, dest, d1, d2)
    ensures OnlyArchiveDirs(z, dest, d0, d2)
  {
    hide PathOf, IsDirectoryName;
  }

  /** Two disjoint extractions, one after the other, are one. */
  lemma ExtractedTwice(z: Archive, dest: string, a: set<string>, b: set<string>, s0: Snapshot, s1: Snapshot, s2: Snapshot)
    requires OneEntryEach(z) && EntriesOf(z, b) && a !! b
    requires Extracted(z, dest, a, s0, s1) && Extracted(z, dest, b, s1, s2)
    ensures Extracted(z, dest, a + b, s0, s2)
  {
    assert s1.dirs <= s2.dirs;
    hide Delivered, OthersKept, OnlyArchiveDirs, Targets, DirsMade;
    TargetsOfUnion(dest, a, b);
    DeliveredTwice(z, dest, a, b, s1.files, s2.files);
    DirsMadeTwice(z, dest, a, b, s1, s2);
    OthersKeptTwice(dest, a, b, s0.files, s1.files, s2.files);
    OnlyDirsTwice(z, dest, s0.dirs, s1.dirs, s2.dirs);
  }

  lemma FileIsNoDirectory(names: seq<string>, f: string, d: string)
    requires WellFormed(names) && f in names && IsFileName(f) && d in names && IsDirectoryName(d)
    ensures d != f + "/" && d != f
  {
  }

  lemma NotATarget(z: Archive, dest: string, ns: set<string>, dir: string)
    requires WellFormed(z.names) && EntriesOf(z, ns) && IsDir(z.names, dir)
    ensures PathOf(dest, dir) !in Targets(dest, ns)
  {
    if PathOf(dest, dir) in Targets(dest, ns) {
      var f :| f in ns && IsFileName(f) && PathOf(dest, f) == PathOf(dest, dir);
      if dir == "" {
        PathsDiffer(dest, f, f);
      } else {
        FileIsNoDirectory(z.names, f, dir);
        PathsDiffer(dest, f, dir);
      }
    }
  }

  /** Extraction creates no clash that was not there. */
  lemma ClashWasThere(z: Archive, dest: string, ns: set<string>, before: Snapshot, after: Snapshot)
    requires OneEntryEach(z) && WellFormed(z.names) && EntriesOf(z, ns)
    requires Extracted(z, dest, ns, before, after)
    requires Clash(z, dest, after.files, after.dirs)
    ensures Clash(z, dest, before.files, before.dirs)
  {
    if dest in after.files {
      NotATarget(z, dest, ns, "");
    } else if d :| d in z.names && IsDirectoryName(d) && PathOf(dest, d) in after.files {
      NotATarget(z, dest, ns, d);
    } else {
      var f :| f in z.names && IsFileName(f) && PathOf(dest, f) in after.dirs;
      if PathOf(dest, f) !in before.dirs {
        var d :| d in z.names && IsDirectoryName(d) && PathOf(dest, f) == PathOf(dest, d);
        FileIsNoDirectory(z.names, f, d);
        PathsDiffer(dest, f, d);
      }
    }
  }

  // ---------------------------------------------------------------------
  // extract_dir_recursive
  // ---------------------------------------------------------------------

  /** The walk is at directory dir of a well-formed archive whose entries can be read. */
  ghost predicate OnTrack(z: Archive, mountPoint: string, vfsPath: string, diskPath: string, dir: string, dest: string) {
    && AllReadable(z) && WellFormed(z.names) && IsDir(z.names, dir)
    && vfsPath == PathOf(RootOf(mountPoint), dir) && diskPath == PathOf(dest, dir)
  }

  ghost predicate AtEntry(
    z: Archive, mountPoint: string, vfsPath: string, diskPath: string, dir: string, dest: string, e: DirEntry)
  {
    OnTrack(z, mountPoint, vfsPath, diskPath, dir, dest) && e in Listing(z.names, dir)
  }

  /** What an extraction step promises on a well-formed archive. */
  ghost predicate Outcome(z: Archive, dest: string, ns: set<string>, ok: bool, faulted: bool, before: Snapshot, after: Snapshot)
    requires OneEntryEach(z)
  {
    if ok then Extracted(z, dest, ns, before, after) else faulted || Clash(z, dest, before.files, before.dirs)
  }

  /**
   * One directory, of any archive: it ends, and success means that the walk
   * found everything it was told of. On a well-formed archive every entry below
   * is then extracted, and only a failed call or something in the way prevents it.
   */
  method ExtractDirRecursive(z: Archive, mountPoint: string, lib: Foreign, vfsPath: string, diskPath: string, disk: Disk,
      ghost dir: string, ghost dest: string)
    returns (ok: bool)
    requires OneEntryEach(z) && lib != disk.host
    modifies disk, disk.host`calls, lib`calls
    ensures lib.calls >= old(lib.calls) && disk.host.calls >= old(disk.host.calls)
    ensures ok ==> Reaches(z.names, mountPoint, vfsPath)
    ensures old(OnTrack(z, mountPoint, vfsPath, diskPath, dir, dest) && disk.Exists(diskPath)) ==>
      Outcome(z, dest, Below(z.names, dir), ok, Faulted(lib, disk.host, old(lib.calls), old(disk.host.calls)),
              old(Now(disk)), Now(disk))
    decreases LongestPath(z.names, mountPoint) - |vfsPath|, 1
  {
    hide Extracted, Clash, Listable, EntriesAt, Reaches, OnTrack, LongestPath, Faulted, Parts, Part, Below, Listing;
    hide Followed, EntriesOf, AtEntry, OneEntryEach;
    ghost var track := OnTrack(z, mountPoint, vfsPath, diskPath, dir, dest) && disk.Exists(diskPath);
    ghost var start, libCalls, hostCalls := Now(disk), lib.calls, disk.host.calls;
    if track {
      TrackListed(z, mountPoint, vfsPath, diskPath, dir, dest);
    }
    var r, it := ListDirectory(z, mountPoint, vfsPath);
    if it == null { return false; }
    ListablePathsAreShort(z.names, mountPoint, vfsPath);
    ghost var entries := it.entries;
    NothingExtracted(z, dest, start);
    NoParts(z.names, dir);
    while it.HasNext()
      invariant it.entries == entries && it.currentIndex <= |entries| && fresh(it)
      invariant lib.calls >= libCalls && disk.host.calls >= hostCalls
      invariant forall k :: 0 <= k < it.currentIndex ==> Followed(z.names, mountPoint, vfsPath, entries[k])
      invariant track ==> disk.Exists(diskPath)
      invariant track ==> Extracted(z, dest, Parts(z.names, dir, entries[..it.currentIndex]), start, Now(disk))
      decreases |entries| - it.currentIndex
    {
      ghost var i := it.currentIndex;
      var e := it.Next();
      ghost var before, libBefore, hostBefore := Now(disk), lib.calls, disk.host.calls;
      if track {
        PartStep(z, mountPoint, vfsPath, diskPath, dest, dir, i, start, before);
      }
      ok := ExtractEntry(z, mountPoint, lib, vfsPath, diskPath, disk, e, dir, dest);
      FaultedLater(lib, disk.host, libCalls, hostCalls, libBefore, hostBefore);
      if !ok { return; }
      if track {
        ExtractedTwice(z, dest, Parts(z.names, dir, entries[..i]), Part(z.names, dir, e), start, before, Now(disk));
      }
    }
    assert entries[..|entries|] == entries;
    ReachesIsFollowed(z.names, mountPoint, vfsPath);
    if track {
      TrackDone(z, mountPoint, vfsPath, diskPath, dir, dest);
    }
    return true;
  }

  lemma TrackListed(z: Archive, mountPoint: string, vfsPath: string, diskPath: string, dir: string, dest: string)
    requires OnTrack(z, mountPoint, vfsPath, diskPath, dir, dest)
    ensures Listable(z.names, mountPoint, vfsPath) && EntriesAt(z.names, mountPoint, vfsPath) == Listing(z.names, dir)
  {
    hide WellFormed, IsDir, PathOf, RootOf, Listable, EntriesAt;
    ListingFound(z.names, mountPoint, dir);
  }

  lemma TrackDone(z: Archive, mountPoint: string, vfsPath: string, diskPath: string, dir: string, dest: string)
    requires OnTrack(z, mountPoint, vfsPath, diskPath, dir, dest)
    ensures Parts(z.names, dir, Listing(z.names, dir)) == Below(z.names, dir)
  {
    hide WellFormed, IsDir, Parts, Below;
    PartsOfListing(z.names, dir);
  }

  lemma NoParts(names: seq<string>, dir: string)
    ensures Parts(names, dir, []) == {}
  {
  }

  lemma PartStep(z: Archive, mountPoint: string, vfsPath: string, diskPath: string, dest: string, dir: string, i: nat,
      start: Snapshot, before: Snapshot)
    requires OnTrack(z, mountPoint, vfsPath, diskPath, dir, dest) && i < |Listing(z.names, dir)|
    requires Extracted(z, dest, Parts(z.names, dir, Listing(z.names, dir)[..i]), start, before)
    ensures var entries := Listing(z.names, dir);
      var done, next := Parts(z.names, dir, entries[..i]), Part(z.names, dir, entries[i]);
      && done !! next
      && EntriesOf(z, next)
      && Parts(z.names, dir, entries[..i + 1]) == done + next
      && AtEntry(z, mountPoint, vfsPath, diskPath, dir, dest, entries[i])
    ensures Clash(z, dest, before.files, before.dirs) ==> Clash(z, dest, start.files, start.dirs)
  {
    hide Extracted, Clash, Listing, WellFormed, IsDir, PathOf, RootOf;
    var entries := Listing(z.names, dir);
    PartsOfPrefix(z, dir, i);
    PartsOfPrefix(z, dir, i + 1);
    if Clash(z, dest, before.files, before.dirs) {
      ClashWasThere(z, dest, Parts(z.names, dir, entries[..i]), start, before);
    }
    assert entries[..i + 1][..i] == entries[..i];
    var e := entries[i];
    ListingIsChildren(z.names, dir, e);
    assert !HasName(entries[..i], e.name);
    PartsAreDisjoint(z.names, dir, entries[..i], e);
  }

  lemma PartsOfPrefix(z: Archive, dir: string, i: nat)
    requires WellFormed(z.names) && IsDir(z.names, dir) && i <= |Listing(z.names, dir)|
    ensures EntriesOf(z, Parts(z.names, dir, Listing(z.names, dir)[..i]))
    ensures forall o :: o in Listing(z.names, dir)[..i] ==> '/' !in o.name && o.name != ""
  {
    hide WellFormed, IsDir, Listing, Parts;
    var entries := Listing(z.names, dir);
    PartsOfListing(z.names, dir);
    forall o | o in entries[..i] ensures '/' !in o.name && o.name != "" {
      ListingIsChildren(z.names, dir, o);
    }
    forall f | f in Parts(z.names, dir, entries[..i]) ensures f in z.names {
      PartsHold(z.names, dir, entries[..i], f);
      PartsHold(z.names, dir, entries, f);
    }
  }

  /** One listed entry: its file, or its directory with everything below. */
  method ExtractEntry(z: Archive, mountPoint: string, lib: Foreign, vfsPath: string, diskPath: string, disk: Disk, e: DirEntry,
      ghost dir: string, ghost dest: string)
    returns (ok: bool)
    requires OneEntryEach(z) && lib != disk.host && |vfsPath| <= LongestPath(z.names, mountPoint)
    modifies disk, disk.host`calls, lib`calls
    ensures lib.calls >= old(lib.calls) && disk.host.calls >= old(disk.host.calls)
    ensures ok ==> Followed(z.names, mountPoint, vfsPath, e)
    ensures old(AtEntry(z, mountPoint, vfsPath, diskPath, dir, dest, e) && disk.Exists(diskPath)) ==>
      && Outcome(z, dest, Part(z.names, dir, e), ok, Faulted(lib, disk.host, old(lib.calls), old(disk.host.calls)),
                 old(Now(disk)), Now(disk))
      && (ok ==> disk.Exists(diskPath))
    decreases LongestPath(z.names, mountPoint) - |vfsPath|, 0
  {
    var entryVfsPath := vfsPath + "/" + e.name;
    var entryDiskPath := diskPath + "/" + e.name;
    if e.isDirectory {
      ok := ExtractDirectory(z, mountPoint, lib, vfsPath, diskPath, entryVfsPath, entryDiskPath, disk, e, dir, dest);
    } else {
      ok := ExtractFile(z, mountPoint, lib, vfsPath, diskPath, entryVfsPath, entryDiskPath, disk, e, dir, dest);
    }
  }

  /** The directory branch: create it unless something is there, then descend. */
  method ExtractDirectory(z: Archive, mountPoint: string, lib: Foreign, ghost vfsPath: string, ghost diskPath: string,
      entryVfsPath: string, entryDiskPath: string, disk: Disk, ghost e: DirEntry, ghost dir: string, ghost dest: string)
    returns (ok: bool)
    requires OneEntryEach(z) && lib != disk.host && |vfsPath| <= LongestPath(z.names, mountPoint) && e.isDirectory
    requires entryVfsPath == vfsPath + "/" + e.name && entryDiskPath == diskPath + "/" + e.name
    modifies disk, disk.host`calls, lib`calls
    ensures lib.calls >= old(lib.calls) && disk.host.calls >= old(disk.host.calls)
    ensures ok ==> Followed(z.names, mountPoint, vfsPath, e)
    ensures old(AtEntry(z, mountPoint, vfsPath, diskPath, dir, dest, e) && disk.Exists(diskPath)) ==>
      && Outcome(z, dest, Part(z.names, dir, e), ok, Faulted(lib, disk.host, old(lib.calls), old(disk.host.calls)),
                 old(Now(disk)), Now(disk))
      && (ok ==> disk.Exists(diskPath))
    decreases LongestPath(z.names, mountPoint) - |entryVfsPath|, 2
  {
    hide Extracted, Clash, Reaches, AtEntry, OnTrack, LongestPath, Part, Below, FailedIn;
    ghost var track := AtEntry(z, mountPoint, vfsPath, diskPath, dir, dest, e) && disk.Exists(diskPath);
    ghost var full := FullName(dir, e);
    ghost var start, libCalls, hostCalls := Now(disk), lib.calls, disk.host.calls;
    if track {
      DirectoryOnTrack(z, mountPoint, vfsPath, diskPath, dir, dest, e);
    }
    if !disk.Exists(entryDiskPath) {
      ok := disk.CreateDirectories(entryDiskPath);
      if !ok {
        OneFailed(disk.host, hostCalls);
        return;
      }
    }
    ghost var before, hostBefore := Now(disk), disk.host.calls;
    if track {
      DirectoryMade(z, dest, full, start, before);
    }
    ok := ExtractDirRecursive(z, mountPoint, lib, entryVfsPath, entryDiskPath, disk, full, dest);
    FaultedLater(lib, disk.host, libCalls, hostCalls, libCalls, hostBefore);
    if track && ok {
      DirectoryDone(z, mountPoint, vfsPath, diskPath, dir, dest, e, start, before, Now(disk));
    }
  }

  lemma DirectoryOnTrack(
    z: Archive, mountPoint: string, vfsPath: string, diskPath: string, dir: string, dest: string, e: DirEntry)
    requires AtEntry(z, mountPoint, vfsPath, diskPath, dir, dest, e) && e.isDirectory
    ensures var full := FullName(dir, e);
      && OnTrack(z, mountPoint, vfsPath + "/" + e.name, diskPath + "/" + e.name, full, dest)
      && WellFormed(z.names) && full in z.names && IsDirectoryName(full) && diskPath + "/" + e.name == PathOf(dest, full)
      && diskPath + "/" + e.name != ""
  {
    hide WellFormed, Listing, PathOf, RootOf, AllReadable;
    EntryFacts(z.names, mountPoint, dir, e, dest);
  }

  lemma DirectoryMade(z: Archive, dest: string, full: string, start: Snapshot, before: Snapshot)
    requires OneEntryEach(z) && WellFormed(z.names) && full in z.names && IsDirectoryName(full)
    requires before.files == start.files && before.writes == start.writes
    requires before.dirs == start.dirs || before.dirs == start.dirs + {PathOf(dest, full)}
    requires PathOf(dest, full) in before.files || PathOf(dest, full) in before.dirs
    ensures Extracted(z, dest, {full}, start, before)
    ensures Clash(z, dest, before.files, before.dirs) ==> Clash(z, dest, start.files, start.dirs)
  {
    hide WellFormed;
    assert Targets(dest, {full}) == {};
    assert multiset(Targets(dest, {full})) == multiset{};
    if Clash(z, dest, before.files, before.dirs) {
      ClashWasThere(z, dest, {full}, start, before);
    }
  }

  lemma DirectoryDone(z: Archive, mountPoint: string, vfsPath: string, diskPath: string, dir: string, dest: string, e: DirEntry,
      start: Snapshot, before: Snapshot, after: Snapshot)
    requires AtEntry(z, mountPoint, vfsPath, diskPath, dir, dest, e) && e.isDirectory
    requires Extracted(z, dest, {FullName(dir, e)}, start, before)
    requires Extracted(z, dest, Below(z.names, FullName(dir, e)), before, after)
    requires diskPath in start.files || diskPath in start.dirs
    ensures Extracted(z, dest, Part(z.names, dir, e), start, after)
    ensures diskPath in after.files || diskPath in after.dirs
  {
    hide Extracted, WellFormed, Listing, PathOf, RootOf, IsDir;
    var full := FullName(dir, e);
    EntryFacts(z.names, mountPoint, dir, e, dest);
    ExtractedTwice(z, dest, {full}, Below(z.names, full), start, before, after);
    StillThere(z, dest, dir, Part(z.names, dir, e), start, after);
  }

  lemma StillThere(z: Archive, dest: string, dir: string, ns: set<string>, before: Snapshot, after: Snapshot)
    requires OneEntryEach(z) && WellFormed(z.names) && IsDir(z.names, dir) && EntriesOf(z, ns)
    requires Extracted(z, dest, ns, before, after)
    requires PathOf(dest, dir) in before.files || PathOf(dest, dir) in before.dirs
    ensures PathOf(dest, dir) in after.files || PathOf(dest, dir) in after.dirs
  {
    NotATarget(z, dest, ns, dir);
  }

  /** The file branch: open the entry, create the file, copy. */
  method ExtractFile(z: Archive, mountPoint: string, lib: Foreign, ghost vfsPath: string, diskPath: string,
      entryVfsPath: string, entryDiskPath: string, disk: Disk, e: DirEntry, ghost dir: string, ghost dest: string)
    returns (ok: bool)
    requires OneEntryEach(z) && lib != disk.host && !e.isDirectory
    requires entryVfsPath == vfsPath + "/" + e.name && entryDiskPath == diskPath + "/" + e.name
    modifies disk, disk.host`calls, lib`calls
    ensures lib.calls >= old(lib.calls) && disk.host.calls >= old(disk.host.calls)
    ensures ok ==> Followed(z.names, mountPoint, vfsPath, e)
    ensures old(AtEntry(z, mountPoint, vfsPath, diskPath, dir, dest, e) && disk.Exists(diskPath)) ==>
      && Outcome(z, dest, Part(z.names, dir, e), ok, Faulted(lib, disk.host, old(lib.calls), old(disk.host.calls)),
                 old(Now(disk)), Now(disk))
      && (ok ==> disk.Exists(diskPath))
    decreases LongestPath(z.names, mountPoint) - |entryVfsPath|, 2
  {
    hide Extracted, Clash, AtEntry, OnTrack, Openable, Part, FailedIn, Drained;
    ghost var track := AtEntry(z, mountPoint, vfsPath, diskPath, dir, dest, e) && disk.Exists(diskPath);
    ghost var full := FullName(dir, e);
    ghost var start, libCalls, hostCalls := Now(disk), lib.calls, disk.host.calls;
    if track {
      FileOnTrack(z, mountPoint, vfsPath, diskPath, dir, dest, e, disk.files, disk.dirs);
    }
    var h := OpenFile(z, mountPoint, lib, entryVfsPath);
    if h == null { return false; }
    ok := disk.Create(diskPath, e.name);
    if !ok {
      if disk.host.fails(hostCalls) {
        OneFailed(disk.host, hostCalls);
      }
      return;
    }
    ghost var libBefore, hostBefore := lib.calls, disk.host.calls;
    ok := CopyOut(h, disk, entryDiskPath);
    FaultedLater(lib, disk.host, libCalls, hostCalls, libBefore, hostBefore);
    if track && ok {
      DrainsAll(h.entry.content, h.size, 0, false, lib.grants, libBefore, COPY_BUFFER);
      assert h.entry.content[0..] == h.entry.content;
      assert disk.files == start.files[entryDiskPath := ContentOf(z, full)];
      FileDone(z, mountPoint, vfsPath, diskPath, dir, dest, e, start, Now(disk));
    }
  }

  lemma FileOnTrack(
    z: Archive, mountPoint: string, vfsPath: string, diskPath: string, dir: string, dest: string, e: DirEntry,
    files: map<string, bytes>, dirs: set<string>)
    requires AtEntry(z, mountPoint, vfsPath, diskPath, dir, dest, e) && !e.isDirectory
    ensures var full, path := FullName(dir, e), vfsPath + "/" + e.name;
      && full in z.names
      && Openable(z.names, mountPoint, path)
      && z.entries[Locate(z.names, Strip(mountPoint, path))].content == ContentOf(z, full)
      && Readable(z.entries[Locate(z.names, Strip(mountPoint, path))])
    ensures diskPath in files ==> Clash(z, dest, files, dirs)
    ensures diskPath + "/" + e.name in dirs ==> Clash(z, dest, files, dirs)
  {
    hide WellFormed, Listing, PathOf, RootOf, Openable, Strip, Locate, IndexOf;
    EntryFacts(z.names, mountPoint, dir, e, dest);
    FileFound(z.names, mountPoint, FullName(dir, e));
    PathOfRoot(dest);
  }

  lemma PathOfRoot(dest: string)
    ensures PathOf(dest, "") == dest
  {
  }

  lemma FileDone(z: Archive, mountPoint: string, vfsPath: string, diskPath: string, dir: string, dest: string, e: DirEntry,
      start: Snapshot, after: Snapshot)
    requires AtEntry(z, mountPoint, vfsPath, diskPath, dir, dest, e) && !e.isDirectory
    requires diskPath in start.files || diskPath in start.dirs
    requires FullName(dir, e) in z.names
    requires after.files == start.files[diskPath + "/" + e.name := ContentOf(z, FullName(dir, e))]
    requires after.dirs == start.dirs && after.writes == start.writes + multiset{diskPath + "/" + e.name}
    ensures Extracted(z, dest, Part(z.names, dir, e), start, after)
    ensures diskPath in after.files || diskPath in after.dirs
  {
    hide WellFormed, Listing, RootOf, AllReadable, IsDir, ContentOf;
    var full := FullName(dir, e);
    EntryFacts(z.names, mountPoint, dir, e, dest);
    assert Targets(dest, {full}) == {PathOf(dest, full)};
    assert multiset(Targets(dest, {full})) == multiset{PathOf(dest, full)};
  }

  // ---------------------------------------------------------------------
  // extract_all
  // ---------------------------------------------------------------------

  /**
   * extract_all with one mount. On any archive it ends, and succeeds only if the
   * walk finds everything, that is, if the names meet the condition of ReachesIff. On a well-formed one success means every file exactly
   * once, in full, at its own path, every directory there, and nothing else
   * touched; only a failed call or something in the way prevents it.
   */
  method ExtractAll(z: Archive, mountPoint: string, lib: Foreign, dest: string, disk: Disk) returns (ok: bool)
    requires OneEntryEach(z) && lib != disk.host
    modifies disk, disk.host`calls, lib`calls
    ensures ok ==> Reaches(z.names, mountPoint, RootOf(mountPoint)) && FoundDoubled(z.names)
    ensures ok && AllReadable(z) && WellFormed(z.names) ==>
      && (forall f :: f in z.names && IsFileName(f) ==>
            dest + "/" + f in disk.files && disk.files[dest + "/" + f] == ContentOf(z, f))
      && disk.writes == old(disk.writes) + multiset(Targets(dest, Below(z.names, "")))
      && OthersKept(old(disk.files), disk.files, dest, Below(z.names, ""))
      && OnlyArchiveDirs(z, dest, old(disk.dirs) + {dest}, disk.dirs + {dest})
    ensures ok && AllReadable(z) && WellFormed(z.names) && !Clash(z, dest, old(disk.files), old(disk.dirs)) ==>
      forall d :: d in z.names && IsDirectoryName(d) ==> dest + "/" + Bare(d) in disk.dirs
    ensures !ok && AllReadable(z) && WellFormed(z.names) ==>
      || Faulted(lib, disk.host, old(lib.calls), old(disk.host.calls))
      || Clash(z, dest, old(disk.files), old(disk.dirs))
      || (dest == "" && !old(disk.Exists(dest)))
  {
    hide Extracted, Clash, Reaches, FoundDoubled, WellFormed, AllReadable, Below, Targets, OthersKept, FailedIn;
    hide OnlyArchiveDirs;
    ghost var start, libCalls, hostCalls := Now(disk), lib.calls, disk.host.calls;
    if !disk.Exists(dest) {
      ok := disk.CreateDirectories(dest);
      if !ok {
        if disk.host.fails(hostCalls) {
          OneFailed(disk.host, hostCalls);
        }
        return;
      }
    }
    ghost var before, hostBefore := Now(disk), disk.host.calls;
    var rootPath := if mountPoint == "" then "/" else mountPoint;
    ok := ExtractDirRecursive(z, mountPoint, lib, rootPath, dest, disk, "", dest);
    FaultedLater(lib, disk.host, libCalls, hostCalls, libCalls, hostBefore);
    ReachesIff(z.names, mountPoint);
    if AllReadable(z) && WellFormed(z.names) {
      DestIsNoFile(z, dest, start, before);
      if ok {
        WholeArchive(z, dest, start, before, Now(disk));
      }
    }
  }

  lemma DestIsNoFile(z: Archive, dest: string, start: Snapshot, before: Snapshot)
    requires before.files == start.files && (before.dirs == start.dirs || before.dirs == start.dirs + {dest})
    ensures Clash(z, dest, before.files, before.dirs) ==> Clash(z, dest, start.files, start.dirs)
  {
    forall f | f in z.names && IsFileName(f) && PathOf(dest, f) in before.dirs ensures PathOf(dest, f) in start.dirs {
      PathsDiffer(dest, f, f);
    }
  }

  lemma WholeArchive(z: Archive, dest: string, start: Snapshot, before: Snapshot, after: Snapshot)
    requires OneEntryEach(z) && WellFormed(z.names)
    requires before.files == start.files && before.writes == start.writes
    requires before.dirs == start.dirs || before.dirs == start.dirs + {dest}
    requires Extracted(z, dest, Below(z.names, ""), before, after)
    ensures forall f :: f in z.names && IsFileName(f) ==>
      dest + "/" + f in after.files && after.files[dest + "/" + f] == ContentOf(z, f)
    ensures after.writes == start.writes + multiset(Targets(dest, Below(z.names, "")))
    ensures OthersKept(start.files, after.files, dest, Below(z.names, ""))
    ensures OnlyArchiveDirs(z, dest, start.dirs + {dest}, after.dirs + {dest})
    ensures !Clash(z, dest, start.files, start.dirs) ==>
      forall d :: d in z.names && IsDirectoryName(d) ==> dest + "/" + Bare(d) in after.dirs
  {
    hide WellFormed, Targets, OthersKept, ContentOf;
    assert forall n :: n in z.names && n != "" ==> n in Below(z.names, "");
    forall f | f in z.names && IsFileName(f)
      ensures dest + "/" + f in after.files && after.files[dest + "/" + f] == ContentOf(z, f)
    {
      assert PathOf(dest, f) == dest + "/" + f;
    }
    DestIsNoFile(z, dest, start, before);
    if !Clash(z, dest, start.files, start.dirs) {
      if Clash(z, dest, after.files, after.dirs) {
        ClashWasThere(z, dest, Below(z.names, ""), before, after);
      }
      forall d | d in z.names && IsDirectoryName(d) ensures dest + "/" + Bare(d) in after.dirs {
        assert PathOf(dest, d) == dest + "/" + Bare(d);
      }
    }
  }
}
